/** The flooding protocol as a state machine over any number of concurrent floods. In-flight
    messages form a multiset: they may be reordered and duplicated at will. */
module Flooding {
  import opened Wrappers
  import opened Graphs
  import opened Ttl
  import opened FloodRouter

  datatype Network = Network(neighbors: seq<set<Node>>, config: Config) {
    ghost predicate Valid() {
      forall v, w :: 0 <= v < |neighbors| && w in neighbors[v] ==> w < |neighbors|
    }

    ghost function Edges(): Graph {
      set v, w | 0 <= v < |neighbors| && w in neighbors[v] :: (v, w)
    }

    ghost predicate Edge(v: Node, w: Node) {
      (v, w) in Edges()
    }

    ghost predicate Walk(a: Node, b: Node, k: nat) {
      Graphs.Walk(Edges(), a, b, k)
    }

    ghost predicate Distance(a: Node, b: Node, d: nat) {
      Graphs.Distance(Edges(), a, b, d)
    }
  }

  datatype Packet = Packet(msg: FloodMsg, target: Node)

  datatype Flood = Flood(origin: Node, payload: Payload, flight: multiset<Packet>)

  /** A local delivery: own ones are made by the originator, the others on receipt. */
  datatype Delivered = Delivered(id: FloodId, payload: Payload, own: bool)

  /** The floods so far, and each router's hop records and local deliveries in order. */
  datatype State = State(floods: map<FloodId, Flood>, db: seq<HopRecords>, log: seq<seq<Delivered>>)

  datatype Event =
    | Originate(node: Node, id: FloodId, payload: Payload, stamp: int, ttl: int)
    | Receive(packet: Packet, now: int)

  function Receipts(log: seq<Delivered>, id: FloodId): nat {
    if log == [] then 0
    else Receipts(log[..|log| - 1], id) + (if log[|log| - 1].id == id && !log[|log| - 1].own then 1 else 0)
  }

  function Count(s: State, v: Node, id: FloodId): nat
    requires v < |s.log|
  {
    Receipts(s.log[v], id)
  }

  lemma ReceiptsSnoc(log: seq<Delivered>, x: Delivered, id: FloodId)
    ensures Receipts(log + [x], id) == Receipts(log, id) + (if x.id == id && !x.own then 1 else 0)
  {
    assert (log + [x])[..|log|] == log;
  }

  /** Sending an envelope from v puts one or more copies for each target in flight. */
  ghost predicate Sent(net: Network, v: Node, envelope: Envelope, out: multiset<Packet>)
    requires v < |net.neighbors|
  {
    var msg := envelope.message.(sender := v);
    && (forall p :: p in out ==> p.msg == msg && p.target in net.neighbors[v] - envelope.sentTo)
    && forall w :: w in net.neighbors[v] - envelope.sentTo ==> Packet(msg, w) in out
  }

  ghost predicate Init(net: Network, s: State) {
    && net.Valid() && s.floods == map[]
    && |s.db| == |s.log| == |net.neighbors|
    && forall v :: 0 <= v < |s.db| ==> s.db[v] == map[] && s.log[v] == []
  }

  ghost predicate InFlight(s: State, p: Packet) {
    p.msg.id in s.floods && p in s.floods[p.msg.id].flight
  }

  ghost predicate OriginateStep(net: Network, s: State, e: Event, s': State, out: multiset<Packet>)
    requires e.Originate?
  {
    && e.node < |net.neighbors| && e.id !in s.floods
    && Sent(net, e.node, Announcement(e.id, e.node, e.stamp, e.ttl, e.payload), out)
    && e.node < |s.log|
    && s' == s.(floods := s.floods[e.id := Flood(e.node, e.payload, out)],
                log := s.log[e.node := s.log[e.node] + [Delivered(e.id, e.payload, true)]])
  }

  ghost predicate ReceiveStep(net: Network, s: State, e: Event, s': State, out: multiset<Packet>)
    requires e.Receive?
  {
    var p := e.packet;
    && InFlight(s, p) && p.target < |net.neighbors| == |s.db| == |s.log|
    && var r := React(s.db[p.target], p.msg, e.now, net.config);
       && (if r.envelope.Some? then Sent(net, p.target, r.envelope.value, out) else out == multiset{})
       && var f := s.floods[p.msg.id];
          s' == State(s.floods[p.msg.id := f.(flight := f.flight - multiset{p} + out)],
                      s.db[p.target := r.db],
                      if r.local.None? then s.log
                      else s.log[p.target := s.log[p.target] + [Delivered(p.msg.id, r.local.value, false)]])
  }

  ghost predicate Next(net: Network, s: State, e: Event, s': State) {
    match e
    case Originate(_, _, _, _, _) => exists out :: OriginateStep(net, s, e, s', out)
    case Receive(_, _) => exists out :: ReceiveStep(net, s, e, s', out)
  }

  /** No receiver's clock is more than 30 seconds behind the stamp. */
  predicate Timely(e: Event) {
    e.Receive? ==> Punctual(e.packet.msg.timestamp, e.now)
  }

  lemma TargetsOfSent(net: Network, v: Node, envelope: Envelope, out: multiset<Packet>)
    requires v < |net.neighbors| && Sent(net, v, envelope, out)
    ensures forall w :: (exists o :: o in out && o.target == w) <==> w in net.neighbors[v] && w !in envelope.sentTo
    ensures forall o :: o in out ==> o.msg == envelope.message.(sender := v)
  {
    forall w | w in net.neighbors[v] && w !in envelope.sentTo ensures exists o :: o in out && o.target == w {
      var o := Packet(envelope.message.(sender := v), w);
      assert o in out && o.target == w;
    }
  }

  /** What a receipt puts in flight. Nothing goes back to the neighbor the message came from. On an
      improvement within the hop limit every other neighbor gets the payload, one hop on and in this
      router's name; in all other cases nobody gets anything. */
  lemma NeverSentBack(net: Network, s: State, e: Event, s': State, out: multiset<Packet>)
    requires e.Receive? && ReceiveStep(net, s, e, s', out)
    ensures forall o :: o in out ==> o.target != e.packet.msg.sender
    ensures var msg, v := e.packet.msg, e.packet.target;
            if msg.timestamp <= e.now + 30_000_000 && msg.hop <= net.config.hopsMax &&
               (msg.id in s.db[v] ==> msg.hop < s.db[v][msg.id])
            then
              && (forall w :: (exists o :: o in out && o.target == w) <==> w in net.neighbors[v] && w != msg.sender)
              && (forall o :: o in out ==>
                    o.msg.id == msg.id && o.msg.hop == msg.hop + 1 && o.msg.sender == v &&
                    o.msg.payload == msg.payload && o.msg.timestamp == msg.timestamp)
            else out == multiset{}
  {
    var p := e.packet;
    var r := React(s.db[p.target], p.msg, e.now, net.config);
    if r.envelope.Some? {
      assert r.envelope.value.sentTo == {p.msg.sender};
      TargetsOfSent(net, p.target, r.envelope.value, out);
    }
  }

  /** What the start of a flood puts in flight: every neighbor gets the payload with hop count 0, the
      originator's own stamp and name. */
  lemma EverybodyIsTold(net: Network, s: State, e: Event, s': State, out: multiset<Packet>)
    requires e.Originate? && OriginateStep(net, s, e, s', out)
    ensures forall w :: (exists o :: o in out && o.target == w) <==> w in net.neighbors[e.node]
    ensures forall o :: o in out ==>
              o.msg == FloodMsg(e.id, 0, e.node, e.stamp, e.ttl, e.payload)
  {
    TargetsOfSent(net, e.node, Announcement(e.id, e.node, e.stamp, e.ttl, e.payload), out);
  }

  // Soundness: hop counts in flight and on record are lengths of walks

  ghost predicate PacketSound(net: Network, origin: Node, p: Packet) {
    && 0 <= p.msg.hop <= net.config.hopsMax + 1
    && net.Walk(origin, p.msg.sender, p.msg.hop) && net.Edge(p.msg.sender, p.target)
  }

  ghost predicate RecordSound(net: Network, s: State, v: Node, id: FloodId)
    requires v < |s.db| == |s.log|
  {
    if id in s.db[v] then
      && id in s.floods && 0 <= s.db[v][id] <= net.config.hopsMax + 1
      && net.Walk(s.floods[id].origin, v, s.db[v][id] + 1)
      && 1 <= Count(s, v, id) <= net.config.hopsMax + 2 - s.db[v][id]
    else Count(s, v, id) == 0
  }

  ghost predicate PacketsSound(net: Network, s: State) {
    forall id, p :: id in s.floods && p in s.floods[id].flight ==>
      p.msg.id == id && PacketSound(net, s.floods[id].origin, p)
  }

  ghost predicate RecordsSound(net: Network, s: State)
    requires |s.db| == |s.log|
  {
    forall v, id :: 0 <= v < |s.db| ==> RecordSound(net, s, v, id)
  }

  ghost predicate Sound(net: Network, s: State) {
    && net.Valid() && |s.db| == |s.log| == |net.neighbors|
    && (forall id :: id in s.floods ==> s.floods[id].origin < |net.neighbors|)
    && PacketsSound(net, s) && RecordsSound(net, s)
  }

  lemma InitSound(net: Network, s: State)
    requires Init(net, s)
    ensures Sound(net, s)
  {
  }

  lemma OriginateSound(net: Network, s: State, e: Event, s': State, out: multiset<Packet>)
    requires Sound(net, s) && e.Originate? && OriginateStep(net, s, e, s', out)
    ensures Sound(net, s')
  {
    forall v, id | 0 <= v < |s'.db| ensures RecordSound(net, s', v, id) {
      assert RecordSound(net, s, v, id);
      ReceiptsSnoc(s.log[e.node], Delivered(e.id, e.payload, true), id);
    }
    forall id, p | id in s'.floods && p in s'.floods[id].flight
      ensures p.msg.id == id && PacketSound(net, s'.floods[id].origin, p)
    {
      if id == e.id {
        assert net.Walk(e.node, e.node, 0);
      }
    }
  }

  lemma ReceiveSound(net: Network, s: State, e: Event, s': State, out: multiset<Packet>)
    requires Sound(net, s) && e.Receive? && ReceiveStep(net, s, e, s', out)
    ensures Sound(net, s')
  {
    ReceiveRecordsSound(net, s, e, s', out);
    ReceivePacketsSound(net, s, e, s', out);
  }

  lemma ReceiveRecordsSound(net: Network, s: State, e: Event, s': State, out: multiset<Packet>)
    requires Sound(net, s) && e.Receive? && ReceiveStep(net, s, e, s', out)
    ensures |s'.db| == |s'.log| == |s.db| && RecordsSound(net, s')
  {
    forall v, id | 0 <= v < |s'.db| ensures RecordSound(net, s', v, id) {
      ReceiveRecordSound(net, s, e, s', out, v, id);
    }
  }

  lemma ReceivePacketsSound(net: Network, s: State, e: Event, s': State, out: multiset<Packet>)
    requires Sound(net, s) && e.Receive? && ReceiveStep(net, s, e, s', out)
    ensures PacketsSound(net, s')
  {
    forall id, o | id in s'.floods && o in s'.floods[id].flight
      ensures o.msg.id == id && PacketSound(net, s'.floods[id].origin, o)
    {
      ReceivePacketSound(net, s, e, s', out, id, o);
    }
  }

  lemma ReceiveRecordSound(net: Network, s: State, e: Event, s': State, out: multiset<Packet>, v: Node, id: FloodId)
    requires Sound(net, s) && e.Receive? && ReceiveStep(net, s, e, s', out) && v < |s.db|
    ensures |s'.db| == |s'.log| == |s.db| && RecordSound(net, s', v, id)
  {
    var p, t, i := e.packet, e.packet.target, e.packet.msg.id;
    var origin := s.floods[i].origin;
    assert PacketSound(net, origin, p);
    WalkStep(net.Edges(), origin, p.msg.sender, t, p.msg.hop);
    assert RecordSound(net, s, v, id);
    ReceiptsSnoc(s.log[t], Delivered(i, p.msg.payload, false), id);
  }

  lemma ReceivePacketSound(net: Network, s: State, e: Event, s': State, out: multiset<Packet>, id: FloodId, o: Packet)
    requires Sound(net, s) && e.Receive? && ReceiveStep(net, s, e, s', out)
    requires id in s'.floods && o in s'.floods[id].flight
    ensures o.msg.id == id && PacketSound(net, s'.floods[id].origin, o)
  {
    var p := e.packet;
    assert PacketSound(net, s.floods[p.msg.id].origin, p);
    if o in s.floods[id].flight {
      assert PacketSound(net, s.floods[id].origin, o);
    } else {
      assert id == p.msg.id && o in out;
      WalkStep(net.Edges(), s.floods[id].origin, p.msg.sender, p.target, p.msg.hop);
    }
  }

  lemma NextSound(net: Network, s: State, e: Event, s': State)
    requires Sound(net, s) && Next(net, s, e, s')
    ensures Sound(net, s')
  {
    if e.Originate? {
      var out :| OriginateStep(net, s, e, s', out);
      OriginateSound(net, s, e, s', out);
    } else {
      var out :| ReceiveStep(net, s, e, s', out);
      ReceiveSound(net, s, e, s', out);
    }
  }

  // Completeness: whatever a router should still learn is on its way

  /** w has a record of at most h for the flood, or a message that will give it one. */
  ghost predicate Covered(s: State, id: FloodId, w: Node, h: int) {
    id in s.floods && w < |s.db| &&
    ((id in s.db[w] && s.db[w][id] <= h) ||
     exists p :: p in s.floods[id].flight && p.target == w && p.msg.hop <= h)
  }

  /** w is nearer to the origin than a message with hop count h + 1 could tell it. */
  ghost predicate Nearer(net: Network, origin: Node, w: Node, h: int) {
    exists k: nat :: k <= h && net.Walk(origin, w, k)
  }

  ghost predicate Complete(net: Network, s: State) {
    && (forall id, w :: id in s.floods && net.Edge(s.floods[id].origin, w) ==> Covered(s, id, w, 0))
    && forall v, id, w :: 0 <= v < |s.db| && id in s.db[v] && s.db[v][id] <= net.config.hopsMax && net.Edge(v, w) ==>
         id in s.floods && (Covered(s, id, w, s.db[v][id] + 1) || Nearer(net, s.floods[id].origin, w, s.db[v][id]))
  }

  lemma CoveredAfterOriginate(net: Network, s: State, e: Event, s': State, out: multiset<Packet>, id: FloodId, w: Node, h: int)
    requires e.Originate? && OriginateStep(net, s, e, s', out) && Covered(s, id, w, h)
    ensures Covered(s', id, w, h)
  {
  }

  lemma OriginateComplete(net: Network, s: State, e: Event, s': State, out: multiset<Packet>)
    requires Sound(net, s) && Complete(net, s) && e.Originate? && OriginateStep(net, s, e, s', out)
    ensures Complete(net, s')
  {
    forall id, w | id in s'.floods && net.Edge(s'.floods[id].origin, w) ensures Covered(s', id, w, 0) {
      if id == e.id {
        assert Packet(FloodMsg(e.id, 0, e.node, e.stamp, e.ttl, e.payload), w) in out;
      } else {
        CoveredAfterOriginate(net, s, e, s', out, id, w, 0);
      }
    }
    forall v, id, w | 0 <= v < |s'.db| && id in s'.db[v] && s'.db[v][id] <= net.config.hopsMax && net.Edge(v, w)
      ensures id in s'.floods &&
              (Covered(s', id, w, s'.db[v][id] + 1) || Nearer(net, s'.floods[id].origin, w, s'.db[v][id]))
    {
      if Covered(s, id, w, s.db[v][id] + 1) {
        CoveredAfterOriginate(net, s, e, s', out, id, w, s.db[v][id] + 1);
      }
    }
  }

  /** A message that is consumed leaves a record behind. */
  lemma CoveredAfterReceive(net: Network, s: State, e: Event, s': State, out: multiset<Packet>, id: FloodId, w: Node, h: int)
    requires Sound(net, s) && e.Receive? && Timely(e) && ReceiveStep(net, s, e, s', out) && Covered(s, id, w, h)
    ensures Covered(s', id, w, h)
  {
    if id in s.db[w] && s.db[w][id] <= h {
    } else {
      var p :| p in s.floods[id].flight && p.target == w && p.msg.hop <= h;
      if p == e.packet {
        assert id in s'.db[w] && s'.db[w][id] <= h;
      } else {
        assert p in s'.floods[id].flight;
      }
    }
  }

  lemma ReceiveComplete(net: Network, s: State, e: Event, s': State, out: multiset<Packet>)
    requires Sound(net, s) && Complete(net, s) && e.Receive? && Timely(e) && ReceiveStep(net, s, e, s', out)
    ensures Complete(net, s')
  {
    forall id, w | id in s'.floods && net.Edge(s'.floods[id].origin, w) ensures Covered(s', id, w, 0) {
      CoveredAfterReceive(net, s, e, s', out, id, w, 0);
    }
    forall v, id, w | 0 <= v < |s'.db| && id in s'.db[v] && s'.db[v][id] <= net.config.hopsMax && net.Edge(v, w)
      ensures id in s'.floods &&
              (Covered(s', id, w, s'.db[v][id] + 1) || Nearer(net, s'.floods[id].origin, w, s'.db[v][id]))
    {
      if id in s.db[v] && s'.db[v][id] == s.db[v][id] {
        if Covered(s, id, w, s.db[v][id] + 1) {
          CoveredAfterReceive(net, s, e, s', out, id, w, s.db[v][id] + 1);
        }
      } else {
        NewRecordForwarded(net, s, e, s', out, w);
      }
    }
  }

  /** An improved record is flooded on to every neighbor but the sender, which is nearer. */
  lemma NewRecordForwarded(net: Network, s: State, e: Event, s': State, out: multiset<Packet>, w: Node)
    requires Sound(net, s) && e.Receive? && Timely(e) && ReceiveStep(net, s, e, s', out)
    requires Improves(s.db[e.packet.target], e.packet.msg.id, e.packet.msg.hop)
    requires e.packet.msg.hop <= net.config.hopsMax && net.Edge(e.packet.target, w)
    ensures Covered(s', e.packet.msg.id, w, e.packet.msg.hop + 1) ||
            Nearer(net, s.floods[e.packet.msg.id].origin, w, e.packet.msg.hop)
  {
    var p := e.packet;
    var r := React(s.db[p.target], p.msg, e.now, net.config);
    if w == p.msg.sender {
      assert PacketSound(net, s.floods[p.msg.id].origin, p);
    } else {
      var o := Packet(r.envelope.value.message.(sender := p.target), w);
      assert o in out;
      assert o in s'.floods[p.msg.id].flight;
    }
  }

  lemma NextComplete(net: Network, s: State, e: Event, s': State)
    requires Sound(net, s) && Complete(net, s) && Timely(e) && Next(net, s, e, s')
    ensures Complete(net, s')
  {
    if e.Originate? {
      var out :| OriginateStep(net, s, e, s', out);
      OriginateComplete(net, s, e, s', out);
    } else {
      var out :| ReceiveStep(net, s, e, s', out);
      ReceiveComplete(net, s, e, s', out);
    }
  }

  // Runs

  ghost predicate Run(net: Network, states: seq<State>, events: seq<Event>) {
    && |states| == |events| + 1 && Init(net, states[0])
    && forall i :: 0 <= i < |events| ==> Next(net, states[i], events[i], states[i + 1])
  }

  lemma {:induction false} RunInvariant(net: Network, states: seq<State>, events: seq<Event>, i: nat)
    requires Run(net, states, events) && i < |states|
    ensures Sound(net, states[i])
    ensures (forall k :: 0 <= k < |events| ==> Timely(events[k])) ==> Complete(net, states[i])
  {
    if i > 0 {
      RunInvariant(net, states, events, i - 1);
      NextSound(net, states[i - 1], events[i - 1], states[i]);
      if forall k :: 0 <= k < |events| ==> Timely(events[k]) {
        NextComplete(net, states[i - 1], events[i - 1], states[i]);
      }
    } else {
      InitSound(net, states[0]);
    }
  }

  // Quiescence means breadth-first search is done

  ghost predicate Quiescent(s: State, id: FloodId) {
    id in s.floods && s.floods[id].flight == multiset{}
  }

  lemma {:induction false} RecordAtDistance(net: Network, s: State, id: FloodId, v: Node, d: nat)
    requires Sound(net, s) && Complete(net, s) && Quiescent(s, id)
    requires net.Distance(s.floods[id].origin, v, d) && 0 < d <= net.config.hopsMax + 2
    ensures v < |s.db| && id in s.db[v] && s.db[v][id] == d - 1
    decreases d
  {
    var origin := s.floods[id].origin;
    var c := Predecessor(net.Edges(), origin, v, d);
    assert net.Distance(origin, c, d - 1) && net.Edge(c, v);
    if d == 1 {
      assert Covered(s, id, v, 0);
    } else {
      RecordAtDistance(net, s, id, c, d - 1);
      assert !Nearer(net, origin, v, d - 2) by {
        assert net.Distance(origin, v, d);
      }
      assert Covered(s, id, v, d - 1);
    }
    assert RecordSound(net, s, v, id);
    assert !net.Walk(origin, v, d - 1);
  }

  /** In every run in which the clocks keep up, once a flood is quiescent each router other than
      its originator has a record exactly if it is within hopsMax + 2 hops, one less than its
      distance. */
  lemma FloodIsBreadthFirst(net: Network, states: seq<State>, events: seq<Event>, i: nat, id: FloodId, v: Node)
    requires Run(net, states, events) && i < |states|
    requires forall k :: 0 <= k < |events| ==> Timely(events[k])
    requires Quiescent(states[i], id) && v < |net.neighbors| && v != states[i].floods[id].origin
    ensures |states[i].db| == |net.neighbors|
    ensures forall d: nat :: net.Distance(states[i].floods[id].origin, v, d) && d <= net.config.hopsMax + 2 ==>
              id in states[i].db[v] && states[i].db[v][id] == d - 1
    ensures id in states[i].db[v] ==>
              exists d: nat :: net.Distance(states[i].floods[id].origin, v, d) && d <= net.config.hopsMax + 2
  {
    RunInvariant(net, states, events, i);
    var s := states[i];
    var origin := s.floods[id].origin;
    forall d: nat | net.Distance(origin, v, d) && d <= net.config.hopsMax + 2
      ensures id in s.db[v] && s.db[v][id] == d - 1
    {
      RecordAtDistance(net, s, id, v, d);
    }
    assert RecordSound(net, s, v, id);
    if id in s.db[v] {
      var d := ShortestWalk(net.Edges(), origin, v, s.db[v][id] + 1);
      assert net.Distance(origin, v, d);
    }
  }

  /** At any time in any run: a record is never better than the distance, and no router delivers
      a flood more than hopsMax + 2 times on receipt. */
  lemma AlwaysSafe(net: Network, states: seq<State>, events: seq<Event>, i: nat, id: FloodId, v: Node)
    requires Run(net, states, events) && i < |states| && v < |net.neighbors|
    ensures |states[i].db| == |states[i].log| == |net.neighbors|
    ensures Count(states[i], v, id) <= net.config.hopsMax + 2
    ensures Count(states[i], v, id) > 0 <==> id in states[i].db[v]
    ensures id in states[i].db[v] ==> id in states[i].floods
    ensures id in states[i].db[v] ==>
              forall d: nat :: net.Distance(states[i].floods[id].origin, v, d) ==> d - 1 <= states[i].db[v][id]
  {
    RunInvariant(net, states, events, i);
    assert RecordSound(net, states[i], v, id);
  }

  // Termination

  function Rank(db: HopRecords, id: FloodId, hopsMax: nat): int {
    if id in db then db[id] else hopsMax + 2
  }

  /** The hop improvements still possible, over all routers. */
  function RankSum(db: seq<HopRecords>, id: FloodId, hopsMax: nat): int {
    if db == [] then 0 else Rank(db[0], id, hopsMax) + RankSum(db[1..], id, hopsMax)
  }

  lemma {:induction false} RankSumUpdate(db: seq<HopRecords>, v: nat, r: HopRecords, id: FloodId, hopsMax: nat)
    requires v < |db|
    ensures RankSum(db[v := r], id, hopsMax) ==
            RankSum(db, id, hopsMax) - Rank(db[v], id, hopsMax) + Rank(r, id, hopsMax)
  {
    if v == 0 {
      assert db[v := r][1..] == db[1..];
    } else {
      RankSumUpdate(db[1..], v - 1, r, id, hopsMax);
      assert db[v := r][1..] == db[1..][v - 1 := r];
    }
  }

  lemma {:induction false} RankSumNonnegative(db: seq<HopRecords>, id: FloodId, hopsMax: nat)
    requires forall v :: 0 <= v < |db| ==> Rank(db[v], id, hopsMax) >= 0
    ensures RankSum(db, id, hopsMax) >= 0
  {
    if db != [] {
      RankSumNonnegative(db[1..], id, hopsMax);
    }
  }

  lemma RanksNonnegative(net: Network, s: State, id: FloodId)
    requires Sound(net, s)
    ensures forall v :: 0 <= v < |s.db| ==> Rank(s.db[v], id, net.config.hopsMax) >= 0
  {
    forall v | 0 <= v < |s.db| ensures Rank(s.db[v], id, net.config.hopsMax) >= 0 {
      assert RecordSound(net, s, v, id);
    }
  }

  ghost function Improvements(net: Network, s: State, id: FloodId): nat
    requires Sound(net, s)
  {
    RanksNonnegative(net, s, id);
    RankSumNonnegative(s.db, id, net.config.hopsMax);
    RankSum(s.db, id, net.config.hopsMax)
  }

  predicate Consumes(e: Event, id: FloodId) {
    e.Receive? && e.packet.msg.id == id
  }

  /** Receiving a message of a flood lowers its measure; nothing else changes it. */
  lemma MeasureDrops(net: Network, s: State, e: Event, s': State, id: FloodId)
    requires Sound(net, s) && Next(net, s, e, s') && id in s.floods
    ensures Sound(net, s') && id in s'.floods
    ensures Improvements(net, s', id) <= Improvements(net, s, id)
    ensures Improvements(net, s', id) == Improvements(net, s, id) ==>
              |s'.floods[id].flight| == |s.floods[id].flight| - (if Consumes(e, id) then 1 else 0)
    ensures !Consumes(e, id) ==> Improvements(net, s', id) == Improvements(net, s, id)
  {
    NextSound(net, s, e, s');
    if e.Receive? {
      var out :| ReceiveStep(net, s, e, s', out);
      ReceiveMeasure(net, s, e, s', out, id);
    } else {
      var out :| OriginateStep(net, s, e, s', out);
      assert s'.db == s.db;
    }
  }

  lemma ReceiveMeasure(net: Network, s: State, e: Event, s': State, out: multiset<Packet>, id: FloodId)
    requires Sound(net, s) && e.Receive? && ReceiveStep(net, s, e, s', out) && id in s.floods
    ensures id in s'.floods
    ensures RankSum(s'.db, id, net.config.hopsMax) <= RankSum(s.db, id, net.config.hopsMax)
    ensures RankSum(s'.db, id, net.config.hopsMax) == RankSum(s.db, id, net.config.hopsMax) ==>
              |s'.floods[id].flight| == |s.floods[id].flight| - (if Consumes(e, id) then 1 else 0)
    ensures !Consumes(e, id) ==> RankSum(s'.db, id, net.config.hopsMax) == RankSum(s.db, id, net.config.hopsMax)
  {
    var p := e.packet;
    assert PacketSound(net, s.floods[p.msg.id].origin, p);
    RankReact(s.db[p.target], p.msg, e.now, net.config, id);
    RankSumUpdate(s.db, p.target, s'.db[p.target], id, net.config.hopsMax);
  }

  lemma RankReact(db: HopRecords, msg: FloodMsg, now: int, config: Config, id: FloodId)
    requires msg.hop <= config.hopsMax + 1
    ensures var r := React(db, msg, now, config);
            if id == msg.id && r.local.Some? then Rank(r.db, id, config.hopsMax) < Rank(db, id, config.hopsMax)
            else Rank(r.db, id, config.hopsMax) == Rank(db, id, config.hopsMax)
    ensures React(db, msg, now, config).local.None? ==> React(db, msg, now, config).envelope.None?
  {
  }

  ghost predicate InfiniteRun(net: Network, run: nat -> State, ev: nat -> Event) {
    Init(net, run(0)) && forall i: nat :: StepAt(net, run, ev, i)
  }

  ghost predicate StepAt(net: Network, run: nat -> State, ev: nat -> Event, i: nat) {
    Next(net, run(i), ev(i), run(i + 1))
  }

  lemma {:induction false} InfiniteRunSound(net: Network, run: nat -> State, ev: nat -> Event, i: nat)
    requires InfiniteRun(net, run, ev)
    ensures Sound(net, run(i))
  {
    if i > 0 {
      InfiniteRunSound(net, run, ev, i - 1);
      assert StepAt(net, run, ev, i - 1);
      NextSound(net, run(i - 1), ev(i - 1), run(i));
    }
  }

  lemma {:induction false} MeasureMonotone(net: Network, run: nat -> State, ev: nat -> Event, id: FloodId, i: nat, j: nat)
    requires InfiniteRun(net, run, ev) && i <= j && id in run(i).floods
    requires forall k :: i <= k < j ==> !Consumes(ev(k), id)
    ensures Sound(net, run(i)) && Sound(net, run(j)) && id in run(j).floods
    ensures Improvements(net, run(j), id) == Improvements(net, run(i), id)
    ensures |run(j).floods[id].flight| == |run(i).floods[id].flight|
    decreases j - i
  {
    InfiniteRunSound(net, run, ev, i);
    if i < j {
      assert StepAt(net, run, ev, i);
      MeasureDrops(net, run(i), ev(i), run(i + 1), id);
      MeasureMonotone(net, run, ev, id, i + 1, j);
    }
  }

  lemma FirstConsumption(ev: nat -> Event, id: FloodId, i: nat, j: nat) returns (k: nat)
    requires i <= j && Consumes(ev(j), id)
    ensures i <= k <= j && Consumes(ev(k), id) && forall l :: i <= l < k ==> !Consumes(ev(l), id)
  {
    k := i;
    while !Consumes(ev(k), id)
      invariant i <= k <= j && forall l :: i <= l < k ==> !Consumes(ev(l), id)
      decreases j - k
    {
      k := k + 1;
    }
  }

  /** The measure of a flood, in lexicographic order. */
  ghost predicate MeasureIs(net: Network, s: State, id: FloodId, improvements: nat, flying: nat) {
    Sound(net, s) && id in s.floods && Improvements(net, s, id) == improvements && |s.floods[id].flight| == flying
  }

  /** From i up to and including its next receipt at k, the measure of a flood drops. */
  lemma MeasureUntil(net: Network, run: nat -> State, ev: nat -> Event, id: FloodId, i: nat, k: nat,
                     improvements: nat, flying: nat) returns (improvements': nat, flying': nat)
    requires InfiniteRun(net, run, ev) && i <= k && Consumes(ev(k), id)
    requires forall l :: i <= l < k ==> !Consumes(ev(l), id)
    requires MeasureIs(net, run(i), id, improvements, flying)
    ensures MeasureIs(net, run(k + 1), id, improvements', flying')
    ensures improvements' < improvements || (improvements' == improvements && flying' < flying)
  {
    MeasureMonotone(net, run, ev, id, i, k);
    assert StepAt(net, run, ev, k);
    MeasureDrops(net, run(k), ev(k), run(k + 1), id);
    improvements', flying' := Improvements(net, run(k + 1), id), |run(k + 1).floods[id].flight|;
  }

  lemma {:induction false} DiesAfter(net: Network, run: nat -> State, ev: nat -> Event, id: FloodId, i: nat,
                                     improvements: nat, flying: nat) returns (n: nat)
    requires InfiniteRun(net, run, ev) && MeasureIs(net, run(i), id, improvements, flying)
    ensures forall k :: k >= n ==> !Consumes(ev(k), id)
    decreases improvements, flying
  {
    if j: nat :| j >= i && Consumes(ev(j), id) {
      var k := FirstConsumption(ev, id, i, j);
      var improvements', flying' := MeasureUntil(net, run, ev, id, i, k, improvements, flying);
      n := DiesAfter(net, run, ev, id, k + 1, improvements', flying');
    } else {
      n := i;
    }
  }

  /** In no infinite run, whatever the other floods do and however often messages are duplicated,
      is a flood received from forever. */
  lemma EveryFloodTerminates(net: Network, run: nat -> State, ev: nat -> Event, id: FloodId) returns (n: nat)
    requires InfiniteRun(net, run, ev)
    ensures forall k :: k >= n ==> !Consumes(ev(k), id)
  {
    if j: nat :| Consumes(ev(j), id) {
      InfiniteRunSound(net, run, ev, j);
      assert StepAt(net, run, ev, j);
      n := DiesAfter(net, run, ev, id, j, Improvements(net, run(j), id), |run(j).floods[id].flight|);
    } else {
      n := 0;
    }
  }
}
