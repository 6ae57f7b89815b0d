/** A network of router objects behaves as the state machine of Flooding says: what its theorems
    state of every run holds of the routers' hop records and local deliveries. */
module FloodRefinement {
  import opened Wrappers
  import opened Graphs
  import opened FloodRouter
  import opened Flooding

  /** The routers have the neighbors of the network and the hop records of the state. */
  ghost predicate Mirrors(net: Network, s: State, routers: seq<LinkStateRouter>)
    reads set r | r in routers, set r | r in routers :: r.floodDb
  {
    && |routers| == |net.neighbors| == |s.db| == |s.log|
    && (forall v :: 0 <= v < |routers| ==>
          routers[v].pseudonym == v && routers[v].config == net.config &&
          routers[v].neighbors == net.neighbors[v] && routers[v].floodDb.database == s.db[v])
    && forall v, w :: 0 <= v < w < |routers| ==> routers[v].floodDb != routers[w].floodDb
  }

  /** Fresh routers mirror an initial state. */
  method Start(net: Network) returns (routers: seq<LinkStateRouter>, ghost s: State)
    requires net.Valid()
    ensures Init(net, s) && Mirrors(net, s, routers)
    ensures fresh(set r | r in routers) && fresh(set r | r in routers :: r.floodDb)
  {
    var n := |net.neighbors|;
    routers := [];
    s := State(map[], seq(n, v => map[]), seq(n, v => []));
    for v := 0 to n
      invariant |routers| == v
      invariant fresh(set r | r in routers) && fresh(set r | r in routers :: r.floodDb)
      invariant forall w :: 0 <= w < v ==>
                  routers[w] in routers && routers[w].pseudonym == w && routers[w].config == net.config &&
                  routers[w].neighbors == net.neighbors[w] && routers[w].floodDb.database == map[]
      invariant forall w, x :: 0 <= w < x < v ==> routers[w].floodDb != routers[x].floodDb
    {
      var r := new LinkStateRouter(v, net.config, net.neighbors[v]);
      assert forall w :: 0 <= w < v ==> routers[w].floodDb in (set q | q in routers :: q.floodDb);
      routers := routers + [r];
    }
  }

  /** Each target gets a copy, and as many more as the network makes. */
  method Send(ghost net: Network, router: LinkStateRouter, envelope: Envelope, more: Node -> nat)
    returns (out: multiset<Packet>)
    requires router.pseudonym < |net.neighbors| && router.neighbors == net.neighbors[router.pseudonym]
    ensures Sent(net, router.pseudonym, envelope, out)
  {
    var targets, msg := router.FloodTargets(envelope);
    ghost var all := targets;
    out := multiset{};
    while targets != {}
      invariant targets <= all
      invariant forall p :: p in out ==> p.msg == msg && p.target in all
      invariant forall w :: w in all && w !in targets ==> Packet(msg, w) in out
      decreases targets
    {
      var w :| w in targets;
      out := out[Packet(msg, w) := 1 + more(w)];
      targets := targets - {w};
    }
  }

  /** flood, at router v. */
  method Originate(ghost net: Network, ghost s: State, routers: seq<LinkStateRouter>, v: Node,
                   id: FloodId, payload: Payload, now: int, ttl: int, more: Node -> nat)
    returns (local: Payload, out: multiset<Packet>, ghost s': State)
    requires Mirrors(net, s, routers) && v < |routers| && id !in s.floods
    ensures local == payload && Sent(net, v, Announcement(id, v, now, ttl, payload), out)
    ensures OriginateStep(net, s, Event.Originate(v, id, payload, now, ttl), s', out)
    ensures Mirrors(net, s', routers) && s'.log[v] == s.log[v] + [Delivered(id, local, true)]
  {
    var envelope;
    local, envelope := routers[v].Flood(id, payload, now, ttl);
    out := Send(net, routers[v], envelope, more);
    s' := s.(floods := s.floods[id := Flood(v, payload, out)],
             log := s.log[v := s.log[v] + [Delivered(id, payload, true)]]);
  }

  /** handle_flood, at the packet's target. */
  method Receive(ghost net: Network, ghost s: State, routers: seq<LinkStateRouter>, packet: Packet, now: int,
                 more: Node -> nat)
    returns (local: Option<Payload>, out: multiset<Packet>, ghost s': State)
    requires Mirrors(net, s, routers) && InFlight(s, packet) && packet.target < |routers|
    modifies routers[packet.target].floodDb
    ensures local == React(s.db[packet.target], packet.msg, now, net.config).local
    ensures ReceiveStep(net, s, Event.Receive(packet, now), s', out)
    ensures Mirrors(net, s', routers)
    ensures s'.log[packet.target] ==
            s.log[packet.target] + if local.None? then [] else [Delivered(packet.msg.id, local.value, false)]
  {
    var v := packet.target;
    var envelope;
    local, envelope := routers[v].HandleFlood(packet.msg, now);
    out := multiset{};
    if envelope.Some? {
      out := Send(net, routers[v], envelope.value, more);
    }
    ghost var f := s.floods[packet.msg.id];
    s' := State(s.floods[packet.msg.id := f.(flight := f.flight - multiset{packet} + out)],
                s.db[v := routers[v].floodDb.database],
                if local.None? then s.log else s.log[v := s.log[v] + [Delivered(packet.msg.id, local.value, false)]]);
  }
}
