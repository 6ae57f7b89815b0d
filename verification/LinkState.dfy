/** prism/server/routing/network.py: the link-state database and the routing table, with the LSP
    handlers of prism/server/routing/router_ls.py. What networkx's shortest_path answers is an
    input of the methods that call it. */
module LinkState {
  import opened Wrappers
  import opened Graphs
  import opened Ttl

  datatype Lsp = Lsp(pseudonym: Node, timestamp: int, ttl: int, neighbors: seq<Node>, body: nat)

  type Database = map<Node, Lsp>

  /** The database after an LSP: only a strictly newer one replaces what is there. */
  function Merge(db: Database, lsp: Lsp): Database {
    if lsp.pseudonym in db && db[lsp.pseudonym].timestamp >= lsp.timestamp then db
    else db[lsp.pseudonym := lsp]
  }

  // The graph of a database

  predicate Unexpired(lsp: Lsp, now: int) {
    lsp.timestamp + lsp.ttl * MICROS > now
  }

  predicate Expired(lsp: Lsp, now: int) {
    lsp.timestamp + lsp.ttl * MICROS < now
  }

  function Edges(db: Database, now: int): Graph {
    set s, n | s in db && n in db[s].neighbors && Unexpired(db[s], now) :: (s, n)
  }

  /** An LSP contributes its neighbors until its time to live has passed since its stamp. */
  lemma EdgeLifetime(db: Database, v: Node, w: Node, now: int)
    ensures (v, w) in Edges(db, now) <==>
            v in db && w in db[v].neighbors && now < db[v].timestamp + db[v].ttl * 1_000_000
  {
  }

  /** With a positive time to live it contributes all of them from its stamp up to the last
      microsecond of that time, and none from then on. */
  lemma LspLifetime(db: Database, v: Node, now: int)
    requires v in db && db[v].ttl > 0
    ensures var until := db[v].timestamp + db[v].ttl * 1_000_000;
            && db[v].timestamp < until
            && (now < until ==> forall w :: (v, w) in Edges(db, now) <==> w in db[v].neighbors)
            && (now >= until ==> forall w :: (v, w) !in Edges(db, now))
  {
  }

  /** Time alone only takes edges away. */
  lemma EdgesShrink(db: Database, now: int, later: int)
    requires now <= later
    ensures Edges(db, later) <= Edges(db, now)
  {
    forall e | e in Edges(db, later) ensures e in Edges(db, now) {
      EdgeLifetime(db, e.0, e.1, later);
      EdgeLifetime(db, e.0, e.1, now);
    }
  }

  ghost predicate HasNode(g: Graph, v: Node) {
    exists e :: e in g && (e.0 == v || e.1 == v)
  }

  ghost predicate IsPath(g: Graph, path: seq<Node>) {
    path != [] && forall i :: 0 <= i < |path| - 1 ==> (path[i], path[i + 1]) in g
  }

  /** What shortest_path may answer: for each reachable node some path with the fewest edges. */
  ghost predicate ShortestPaths(g: Graph, source: Node, paths: map<Node, seq<Node>>) {
    && (forall t, k: nat :: Walk(g, source, t, k) ==> t in paths)
    && forall t :: t in paths ==>
         IsPath(g, paths[t]) && paths[t][0] == source && paths[t][|paths[t]| - 1] == t &&
         Distance(g, source, t, |paths[t]| - 1)
  }

  type Table = map<Node, Node>

  function FirstHops(source: Node, paths: map<Node, seq<Node>>): Table {
    map t | t in paths && |paths[t]| > 1 && t != source :: paths[t][1]
  }

  /** A table of first hops of some shortest paths. */
  ghost predicate TableFor(g: Graph, source: Node, table: Table) {
    exists paths :: ShortestPaths(g, source, paths) && table == FirstHops(source, paths)
  }

  lemma NoEdgesNoWalks(v: Node, t: Node, k: nat)
    requires Walk({}, v, t, k)
    ensures k == 0 && t == v
  {
  }

  lemma EmptyTable(v: Node)
    ensures TableFor({}, v, map[])
  {
    var paths := map[v := [v]];
    forall t, k: nat | Walk({}, v, t, k) ensures t in paths {
      NoEdgesNoWalks(v, t, k);
    }
    assert ShortestPaths({}, v, paths) && FirstHops(v, paths) == map[];
  }

  class LinkStateNetwork {
    const pseudonym: Node
    var database: Database
    var routingTable: Table
    var reachablePseudonyms: set<Node>

    /** The graph the table was built for. */
    ghost var graph: Graph

    ghost predicate Valid()
      reads this
    {
      TableFor(graph, pseudonym, routingTable)
    }

    constructor (pseudonym: Node)
      ensures Valid() && this.pseudonym == pseudonym && database == map[] && graph == {}
    {
      this.pseudonym := pseudonym;
      database, routingTable, reachablePseudonyms, graph := map[], map[], {}, {};
      EmptyTable(pseudonym);
    }

    /** A router that is not in the graph keeps the table it had. */
    method UpdateRoutingTable(now: int, hasNode: bool, paths: map<Node, seq<Node>>)
      requires hasNode == HasNode(Edges(database, now), pseudonym)
      requires hasNode ==> ShortestPaths(Edges(database, now), pseudonym, paths)
      requires Valid()
      modifies this`routingTable, this`reachablePseudonyms, this`graph
      ensures Valid() && graph == if hasNode then Edges(database, now) else old(graph)
      ensures routingTable == if hasNode then FirstHops(pseudonym, paths) else old(routingTable)
      ensures reachablePseudonyms == if hasNode then routingTable.Keys + {pseudonym} else old(reachablePseudonyms)
    {
      if !hasNode {
        return;
      }
      routingTable := FirstHops(pseudonym, paths);
      reachablePseudonyms := routingTable.Keys + {pseudonym};
      graph := Edges(database, now);
    }

    method Update(lsp: Lsp, now: int, hasNode: bool, paths: map<Node, seq<Node>>) returns (updated: bool)
      requires hasNode == HasNode(Edges(Merge(database, lsp), now), pseudonym)
      requires hasNode ==> ShortestPaths(Edges(Merge(database, lsp), now), pseudonym, paths)
      requires Valid()
      modifies this
      ensures database == Merge(old(database), lsp)
      ensures updated <==> database != old(database)
      ensures Valid() && graph == if updated && hasNode then Edges(database, now) else old(graph)
      ensures routingTable == if updated && hasNode then FirstHops(pseudonym, paths) else old(routingTable)
    {
      if lsp.pseudonym in database && database[lsp.pseudonym].timestamp >= lsp.timestamp {
        return false;
      }
      database := database[lsp.pseudonym := lsp];
      assert database[lsp.pseudonym] == lsp;
      UpdateRoutingTable(now, hasNode, paths);
      return true;
    }

    method RemoveExpired(now: int, hasNode: bool, paths: map<Node, seq<Node>>)
      requires hasNode == HasNode(Edges(Purged(database, now), now), pseudonym)
      requires hasNode ==> ShortestPaths(Edges(Purged(database, now), now), pseudonym, paths)
      requires Valid()
      modifies this
      ensures database == Purged(old(database), now)
      ensures Valid() && graph == if database != old(database) && hasNode then Edges(database, now) else old(graph)
      ensures routingTable == if database != old(database) && hasNode then FirstHops(pseudonym, paths)
                              else old(routingTable)
    {
      var expired := set s | s in database && Expired(database[s], now);
      assert database - expired == Purged(database, now);
      if expired != {} {
        ghost var s :| s in expired;
        database := database - expired;
        assert s !in database && s in old(database);
        UpdateRoutingTable(now, hasNode, paths);
      }
    }

    /** online tells whether the destination is a neighbor that is online. */
    method Hop(destination: Node, online: bool) returns (r: Option<Node>)
      requires Valid()
      ensures r.Some? ==> NextHop(graph, pseudonym, destination, r.value)
      ensures online ==> r == Some(destination)
      ensures !online ==>
                (r.Some? <==> destination != pseudonym && exists k: nat :: Walk(graph, pseudonym, destination, k))
      ensures !online && r.Some? ==> (pseudonym, r.value) in graph
    {
      if online {
        return Some(destination);
      }
      ghost var paths :| ShortestPaths(graph, pseudonym, paths) && routingTable == FirstHops(pseudonym, paths);
      TableReaches(graph, pseudonym, paths, destination);
      r := if destination in routingTable then Some(routingTable[destination]) else None;
    }

    /** handle_lsp: LSPs from the future are ignored, the time to live is clamped. */
    method HandleLsp(lsp: Lsp, now: int, ttlMax: nat, hasNode: bool, paths: map<Node, seq<Node>>)
      requires hasNode == HasNode(Edges(MergeAll(database, Accepted([Delivery(lsp, now)], ttlMax)), now), pseudonym)
      requires hasNode ==>
                 ShortestPaths(Edges(MergeAll(database, Accepted([Delivery(lsp, now)], ttlMax)), now), pseudonym, paths)
      requires Valid()
      modifies this
      ensures database == MergeAll(old(database), Accepted([Delivery(lsp, now)], ttlMax))
      ensures Valid() && graph == if database != old(database) && hasNode then Edges(database, now) else old(graph)
    {
      assert Accepted([Delivery(lsp, now)][1..], ttlMax) == [];
      if Punctual(lsp.timestamp, now) {
        var valid := lsp.(ttl := ClampTtl(lsp.ttl, ttlMax));
        assert Accepted([Delivery(lsp, now)], ttlMax) == [valid];
        assert MergeAll(database, [valid]) == Merge(database, valid);
        var _ := Update(valid, now, hasNode, paths);
      }
    }
  }

  /** A table has an entry, along an edge, for exactly the other routers that can be reached. */
  lemma TableReaches(g: Graph, source: Node, paths: map<Node, seq<Node>>, t: Node)
    requires ShortestPaths(g, source, paths)
    ensures t in FirstHops(source, paths) <==> t != source && exists k: nat :: Walk(g, source, t, k)
    ensures t in FirstHops(source, paths) ==> (source, FirstHops(source, paths)[t]) in g
  {
    if t in paths {
      assert Walk(g, source, t, |paths[t]| - 1);
      if |paths[t]| > 1 {
        assert (paths[t][0], paths[t][1]) in g;
      }
    }
  }

  function Purged(db: Database, now: int): Database {
    map s | s in db && !Expired(db[s], now) :: db[s]
  }

  /** Purging keeps an entry as it is until its time to live has passed, to the microsecond; it takes
      no edge from the graph. */
  lemma PurgedExactly(db: Database, now: int)
    ensures forall k :: k in Purged(db, now) <==> k in db && now <= db[k].timestamp + db[k].ttl * 1_000_000
    ensures forall k :: k in Purged(db, now) ==> Purged(db, now)[k] == db[k]
    ensures Edges(Purged(db, now), now) == Edges(db, now)
  {
    forall v: Node, w: Node ensures (v, w) in Edges(Purged(db, now), now) <==> (v, w) in Edges(db, now) {
      EdgeLifetime(db, v, w, now);
      EdgeLifetime(Purged(db, now), v, w, now);
    }
  }

  // Convergence of the databases

  /** An LSP arriving at some time, alone or in a database response. */
  datatype Delivery = Delivery(lsp: Lsp, now: int)

  /** The LSPs that pass validation, as they are stored. */
  function Accepted(deliveries: seq<Delivery>, ttlMax: nat): seq<Lsp> {
    if deliveries == [] then [] else
      var d := deliveries[0];
      (if Punctual(d.lsp.timestamp, d.now) then [d.lsp.(ttl := ClampTtl(d.lsp.ttl, ttlMax))] else [])
      + Accepted(deliveries[1..], ttlMax)
  }

  /** Accepted are the LSPs that arrived with a stamp at most 30 seconds ahead, with nothing but a
      time to live out of range changed. */
  lemma {:induction false} AcceptedMembers(deliveries: seq<Delivery>, ttlMax: nat, lsp: Lsp)
    ensures lsp in Accepted(deliveries, ttlMax) <==>
            exists d :: d in deliveries && d.lsp.timestamp <= d.now + 30_000_000 && lsp == d.lsp.(ttl := ClampTtl(d.lsp.ttl, ttlMax))
    decreases |deliveries|
  {
    if deliveries != [] {
      AcceptedMembers(deliveries[1..], ttlMax, lsp);
      assert deliveries == [deliveries[0]] + deliveries[1..];
    }
  }

  function MergeAll(db: Database, lsps: seq<Lsp>): Database
    decreases |lsps|
  {
    if lsps == [] then db else MergeAll(Merge(db, lsps[0]), lsps[1..])
  }

  /** The LSPs of an originator that a database holds or a sequence brings. */
  ghost predicate Offered(db: Database, lsps: seq<Lsp>, lsp: Lsp) {
    lsp in lsps || (lsp.pseudonym in db && db[lsp.pseudonym] == lsp)
  }

  ghost predicate Keyed(db: Database) {
    forall k :: k in db ==> db[k].pseudonym == k
  }

  /** Each entry is the newest LSP offered for its originator, and every originator has one. */
  lemma {:induction false} MergeAllIsNewest(db: Database, lsps: seq<Lsp>)
    requires Keyed(db)
    ensures Keyed(MergeAll(db, lsps))
    ensures forall l :: Offered(db, lsps, l) ==>
              l.pseudonym in MergeAll(db, lsps) && MergeAll(db, lsps)[l.pseudonym].timestamp >= l.timestamp
    ensures forall k :: k in MergeAll(db, lsps) ==> Offered(db, lsps, MergeAll(db, lsps)[k])
    decreases |lsps|
  {
    if lsps != [] {
      var first, db', rest := lsps[0], Merge(db, lsps[0]), lsps[1..];
      MergeAllIsNewest(db', rest);
      forall l | Offered(db, lsps, l)
        ensures l.pseudonym in MergeAll(db, lsps) && MergeAll(db, lsps)[l.pseudonym].timestamp >= l.timestamp
      {
        if l in rest {
          assert Offered(db', rest, l);
        } else {
          assert Offered(db', rest, db'[l.pseudonym]);
        }
      }
      forall k | k in MergeAll(db, lsps) ensures Offered(db, lsps, MergeAll(db, lsps)[k]) {
        assert Offered(db', rest, MergeAll(db', rest)[k]);
      }
    }
  }

  /** Different LSPs of one originator have different timestamps. */
  ghost predicate DistinctStamps(lsps: seq<Lsp>) {
    forall l, m :: l in lsps && m in lsps && l.pseudonym == m.pseudonym && l.timestamp == m.timestamp ==> l == m
  }

  /** Order and duplicates do not matter: routers that accepted the same LSPs agree. */
  lemma Convergence(a: seq<Lsp>, b: seq<Lsp>)
    requires DistinctStamps(a) && forall l :: l in a <==> l in b
    ensures MergeAll(map[], a) == MergeAll(map[], b)
  {
    MergeAllIsNewest(map[], a);
    MergeAllIsNewest(map[], b);
    var x, y := MergeAll(map[], a), MergeAll(map[], b);
    forall k | k in x ensures k in y && x[k] == y[k] {
      assert Offered(map[], a, x[k]);
      assert Offered(map[], b, x[k]);
      assert Offered(map[], b, y[k]);
      assert Offered(map[], a, y[k]);
    }
    forall k | k in y ensures k in x {
      assert Offered(map[], b, y[k]);
      assert Offered(map[], a, y[k]);
    }
  }

  /** Of two LSPs with one stamp the first to come stays. So the stamps have to be distinct: routers
      that get two different ones in different orders disagree. */
  lemma TiesDiverge(a: Lsp, b: Lsp)
    requires a.pseudonym == b.pseudonym && a.timestamp == b.timestamp && a != b
    ensures MergeAll(map[], [a, b]) == map[a.pseudonym := a]
    ensures MergeAll(map[], [b, a]) == map[a.pseudonym := b]
    ensures MergeAll(map[], [a, b]) != MergeAll(map[], [b, a])
  {
    TwoMerged(a, b);
    TwoMerged(b, a);
    assert map[a.pseudonym := a][a.pseudonym] != map[a.pseudonym := b][a.pseudonym];
  }

  lemma TwoMerged(a: Lsp, b: Lsp)
    requires a.pseudonym == b.pseudonym && a.timestamp == b.timestamp
    ensures MergeAll(map[], [a, b]) == map[a.pseudonym := a]
  {
    assert [a, b][1..] == [b] && [b][1..] == [];
    assert MergeAll(map[a.pseudonym := a], [b]) == map[a.pseudonym := a];
  }

  /** Without expiry a stored timestamp never goes back. */
  lemma StampsNeverGoBack(db: Database, lsps: seq<Lsp>, k: Node)
    requires Keyed(db) && k in db
    ensures k in MergeAll(db, lsps) && MergeAll(db, lsps)[k].timestamp >= db[k].timestamp
  {
    MergeAllIsNewest(db, lsps);
    assert Offered(db, lsps, db[k]);
  }

  /** A router that received a neighbor's whole database is at least as new as both were. */
  lemma DatabaseResponse(db: Database, other: Database, response: seq<Lsp>)
    requires Keyed(db) && Keyed(other)
    requires forall l :: l in response <==> l.pseudonym in other && other[l.pseudonym] == l
    ensures MergeAll(db, response).Keys == db.Keys + other.Keys
    ensures forall k :: k in db.Keys + other.Keys ==>
              MergeAll(db, response)[k].timestamp ==
              if k !in db || (k in other && other[k].timestamp > db[k].timestamp) then other[k].timestamp else db[k].timestamp
  {
    MergeAllIsNewest(db, response);
    var r := MergeAll(db, response);
    forall k | k in r ensures k in db.Keys + other.Keys {
      assert Offered(db, response, r[k]);
    }
    forall k | k in db ensures k in r && r[k].timestamp >= db[k].timestamp {
      assert Offered(db, response, db[k]);
    }
    forall k | k in other ensures k in r && r[k].timestamp >= other[k].timestamp {
      assert Offered(db, response, other[k]);
    }
    forall k | k in r ensures (k in db && r[k] == db[k]) || (k in other && r[k] == other[k]) {
      assert Offered(db, response, r[k]);
    }
  }

  /** handle_db_response feeds every LSP of the response to handle_lsp in turn. */
  lemma {:induction false} DeliveriesConcatenate(db: Database, a: seq<Lsp>, b: seq<Lsp>)
    ensures MergeAll(MergeAll(db, a), b) == MergeAll(db, a + b)
    decreases |a|
  {
    if a == [] {
      assert a + b == b;
    } else {
      DeliveriesConcatenate(Merge(db, a[0]), a[1..], b);
      assert (a + b)[1..] == a[1..] + b;
    }
  }

  // Forwarding

  lemma {:induction false} PathIsWalk(g: Graph, path: seq<Node>, i: nat, j: nat)
    requires IsPath(g, path) && i <= j < |path|
    ensures Walk(g, path[i], path[j], j - i)
    decreases j - i
  {
    if i < j {
      PathIsWalk(g, path, i, j - 1);
      WalkStep(g, path[i], path[j - 1], path[j], j - 1 - i);
    }
  }

  /** A hop the code may take at v: the destination itself, when it is an online neighbor, or the
      table's entry for some choice among the shortest paths. */
  ghost predicate NextHop(g: Graph, v: Node, destination: Node, w: Node) {
    w == destination ||
    exists paths :: ShortestPaths(g, v, paths) && destination in FirstHops(v, paths) &&
                    FirstHops(v, paths)[destination] == w
  }

  /** The second node of a shortest path is one nearer to its end. */
  lemma SecondIsNearer(g: Graph, path: seq<Node>, d: nat)
    requires IsPath(g, path) && |path| == d + 1 > 1 && Distance(g, path[0], path[d], d)
    ensures Distance(g, path[1], path[d], d - 1)
  {
    PathIsWalk(g, path, 1, d);
    assert (path[0], path[1]) in g;
    forall k: nat | k < d - 1 ensures !Walk(g, path[1], path[d], k) {
      if Walk(g, path[1], path[d], k) {
        WalkFront(g, path[0], path[1], path[d], k);
      }
    }
  }

  /** Every hop reaches the destination or is exactly one nearer to it. */
  lemma HopIsNearer(g: Graph, v: Node, destination: Node, w: Node, d: nat)
    requires Distance(g, v, destination, d) && NextHop(g, v, destination, w)
    ensures w == destination || (d > 0 && Distance(g, w, destination, d - 1))
  {
    if w != destination {
      var paths :| ShortestPaths(g, v, paths) && destination in FirstHops(v, paths) &&
                   FirstHops(v, paths)[destination] == w;
      DistancesSeparate(g, v, v, destination, |paths[destination]| - 1, d);
      SecondIsNearer(g, paths[destination], d);
    }
  }

  /** A journey of a packet; it stops at the destination. Tables and neighbors may differ at
      every hop. */
  ghost predicate Journey(g: Graph, trace: seq<Node>, destination: Node) {
    && trace != []
    && forall i :: 0 <= i < |trace| - 1 ==>
         trace[i] != destination && NextHop(g, trace[i], destination, trace[i + 1])
  }

  lemma {:induction false} DistanceFalls(g: Graph, trace: seq<Node>, destination: Node, d: nat, i: nat)
    requires Journey(g, trace, destination) && Distance(g, trace[0], destination, d) && i < |trace|
    ensures trace[i] == destination || (i < d && Distance(g, trace[i], destination, d - i))
  {
    if i > 0 {
      DistanceFalls(g, trace, destination, d, i - 1);
      HopIsNearer(g, trace[i - 1], destination, trace[i], d - (i - 1));
    }
  }

  /** A packet makes at most as many hops as its source is away, without visiting a router twice. */
  lemma JourneyIsShort(g: Graph, trace: seq<Node>, destination: Node, d: nat)
    requires Journey(g, trace, destination) && Distance(g, trace[0], destination, d)
    ensures |trace| - 1 <= d
    ensures forall i, j :: 0 <= i < j < |trace| ==> trace[i] != trace[j]
  {
    if |trace| > 1 {
      DistanceFalls(g, trace, destination, d, |trace| - 2);
    }
    forall i, j | 0 <= i < j < |trace| ensures trace[i] != trace[j] {
      DistanceFalls(g, trace, destination, d, i);
      DistanceFalls(g, trace, destination, d, j);
      if trace[j] != destination {
        DistancesSeparate(g, trace[i], trace[j], destination, d - i, d - j);
      }
    }
  }

  /** Until it arrives a packet can go on: every table for the graph has an entry for a
      destination that is reachable. */
  lemma NeverStuck(g: Graph, trace: seq<Node>, destination: Node, d: nat, paths: map<Node, seq<Node>>)
    requires Journey(g, trace, destination) && Distance(g, trace[0], destination, d)
    requires trace[|trace| - 1] != destination && ShortestPaths(g, trace[|trace| - 1], paths)
    ensures HasNode(g, trace[|trace| - 1])
    ensures destination in FirstHops(trace[|trace| - 1], paths)
    ensures Journey(g, trace + [FirstHops(trace[|trace| - 1], paths)[destination]], destination)
  {
    var v := trace[|trace| - 1];
    var k := d - (|trace| - 1);
    DistanceFalls(g, trace, destination, d, |trace| - 1);
    var path := paths[destination];
    assert (path[0], path[1]) in g;
    var w := FirstHops(v, paths)[destination];
    assert NextHop(g, v, destination, w);
    var longer := trace + [w];
    forall i | 0 <= i < |longer| - 1 ensures longer[i] != destination && NextHop(g, longer[i], destination, longer[i + 1]) {
      if i < |trace| - 1 {
        assert longer[i] == trace[i] && longer[i + 1] == trace[i + 1];
      }
    }
  }
}
