/** Flooding and the link-state databases together: once the floods of the routers' LSPs have
    died out, routers within reach of every originator hold the same database. */
module Synchronization {
  import opened Graphs
  import opened Ttl
  import opened FloodRouter
  import opened Flooding
  import LinkState

  // What is delivered is what was flooded

  ghost predicate PacketFaithful(s: State, id: FloodId, p: Packet)
    requires id in s.floods
  {
    p.msg.payload == s.floods[id].payload
  }

  ghost predicate EntryFaithful(s: State, x: Delivered) {
    x.id in s.floods && x.payload == s.floods[x.id].payload
  }

  /** A router with a record has delivered the flood. */
  ghost predicate RecordLogged(s: State, v: Node, id: FloodId)
    requires v < |s.db| == |s.log|
  {
    id in s.db[v] ==> id in s.floods && Delivered(id, s.floods[id].payload, false) in s.log[v]
  }

  /** So has its originator. */
  ghost predicate OriginLogged(s: State, id: FloodId)
    requires id in s.floods
  {
    s.floods[id].origin < |s.log| && Delivered(id, s.floods[id].payload, true) in s.log[s.floods[id].origin]
  }

  ghost predicate Faithful(s: State) {
    && |s.db| == |s.log|
    && (forall id, p :: id in s.floods && p in s.floods[id].flight ==> PacketFaithful(s, id, p))
    && (forall v, x :: 0 <= v < |s.log| && x in s.log[v] ==> EntryFaithful(s, x))
    && (forall v, id :: 0 <= v < |s.log| ==> RecordLogged(s, v, id))
    && (forall id :: id in s.floods ==> OriginLogged(s, id))
  }

  lemma OriginateLogsFaithful(net: Network, s: State, e: Event, s': State, out: multiset<Packet>, v: Node)
    requires Sound(net, s) && Faithful(s) && e.Originate? && OriginateStep(net, s, e, s', out) && v < |s.log|
    ensures |s'.db| == |s'.log| == |s.log|
    ensures forall x :: x in s'.log[v] ==> EntryFaithful(s', x)
    ensures forall id :: RecordLogged(s', v, id)
  {
    forall x | x in s'.log[v] ensures EntryFaithful(s', x) {
      assert x in s.log[v] ==> EntryFaithful(s, x);
    }
    forall id ensures RecordLogged(s', v, id) {
      assert RecordLogged(s, v, id);
    }
  }

  lemma OriginateFaithful(net: Network, s: State, e: Event, s': State, out: multiset<Packet>)
    requires Sound(net, s) && Faithful(s) && e.Originate? && OriginateStep(net, s, e, s', out)
    ensures Faithful(s')
  {
    forall v, x | 0 <= v < |s'.log| && x in s'.log[v] ensures EntryFaithful(s', x) {
      OriginateLogsFaithful(net, s, e, s', out, v);
    }
    forall v, id | 0 <= v < |s'.log| ensures RecordLogged(s', v, id) {
      OriginateLogsFaithful(net, s, e, s', out, v);
    }
    forall id | id in s'.floods ensures OriginLogged(s', id) {
      assert id != e.id ==> OriginLogged(s, id);
    }
    forall id, p | id in s'.floods && p in s'.floods[id].flight ensures PacketFaithful(s', id, p) {
      assert id != e.id ==> PacketFaithful(s, id, p);
    }
  }

  lemma ReceivePacketsFaithful(net: Network, s: State, e: Event, s': State, out: multiset<Packet>, id: FloodId, o: Packet)
    requires Faithful(s) && e.Receive? && ReceiveStep(net, s, e, s', out)
    requires id in s'.floods && o in s'.floods[id].flight
    ensures PacketFaithful(s', id, o)
  {
    var p := e.packet;
    assert PacketFaithful(s, p.msg.id, p);
    if o in s.floods[id].flight {
      assert PacketFaithful(s, id, o);
    } else {
      assert id == p.msg.id && o in out;
    }
  }

  lemma ReceiveLogsFaithful(net: Network, s: State, e: Event, s': State, out: multiset<Packet>, v: Node)
    requires Sound(net, s) && Faithful(s) && e.Receive? && ReceiveStep(net, s, e, s', out) && v < |s.log|
    ensures |s'.db| == |s'.log| == |s.log|
    ensures forall x :: x in s'.log[v] ==> EntryFaithful(s', x)
    ensures forall id :: RecordLogged(s', v, id)
    ensures forall x :: x in s.log[v] ==> x in s'.log[v]
  {
    assert PacketFaithful(s, e.packet.msg.id, e.packet);
    forall x | x in s'.log[v] ensures EntryFaithful(s', x) {
      assert x in s.log[v] ==> EntryFaithful(s, x);
    }
    forall id ensures RecordLogged(s', v, id) {
      assert RecordLogged(s, v, id);
    }
  }

  lemma ReceiveFaithful(net: Network, s: State, e: Event, s': State, out: multiset<Packet>)
    requires Sound(net, s) && Faithful(s) && e.Receive? && ReceiveStep(net, s, e, s', out)
    ensures Faithful(s')
  {
    forall id, o | id in s'.floods && o in s'.floods[id].flight ensures PacketFaithful(s', id, o) {
      ReceivePacketsFaithful(net, s, e, s', out, id, o);
    }
    forall v, x | 0 <= v < |s'.log| && x in s'.log[v] ensures EntryFaithful(s', x) {
      ReceiveLogsFaithful(net, s, e, s', out, v);
    }
    forall v, id | 0 <= v < |s'.log| ensures RecordLogged(s', v, id) {
      ReceiveLogsFaithful(net, s, e, s', out, v);
    }
    forall id | id in s'.floods ensures OriginLogged(s', id) {
      assert OriginLogged(s, id);
      ReceiveLogsFaithful(net, s, e, s', out, s.floods[id].origin);
    }
  }

  lemma NextFaithful(net: Network, s: State, e: Event, s': State)
    requires Sound(net, s) && Faithful(s) && Next(net, s, e, s')
    ensures Faithful(s')
  {
    if e.Originate? {
      var out :| OriginateStep(net, s, e, s', out);
      OriginateFaithful(net, s, e, s', out);
    } else {
      var out :| ReceiveStep(net, s, e, s', out);
      ReceiveFaithful(net, s, e, s', out);
    }
  }

  lemma {:induction false} RunFaithful(net: Network, states: seq<State>, events: seq<Event>, i: nat)
    requires Run(net, states, events) && i < |states|
    ensures Faithful(states[i])
  {
    if i > 0 {
      RunFaithful(net, states, events, i - 1);
      RunInvariant(net, states, events, i - 1);
      NextFaithful(net, states[i - 1], events[i - 1], states[i]);
    }
  }

  /** The router originated the flood or is near enough to the originator. */
  ghost predicate InReach(net: Network, s: State, id: FloodId, v: Node)
    requires id in s.floods
  {
    v == s.floods[id].origin ||
    exists d: nat :: d <= net.config.hopsMax + 2 && net.Distance(s.floods[id].origin, v, d)
  }

  /** After all floods have died out a router in reach of all originators has delivered exactly
      the payloads that were flooded. */
  lemma DeliveredExactly(net: Network, states: seq<State>, events: seq<Event>, i: nat, v: Node, payload: Payload)
    requires Run(net, states, events) && i < |states| && v < |net.neighbors|
    requires forall k :: 0 <= k < |events| ==> Timely(events[k])
    requires forall id :: id in states[i].floods ==> Quiescent(states[i], id) && InReach(net, states[i], id, v)
    ensures |states[i].log| == |net.neighbors|
    ensures (exists x :: x in states[i].log[v] && x.payload == payload) <==>
            exists id :: id in states[i].floods && states[i].floods[id].payload == payload
  {
    var s := states[i];
    RunInvariant(net, states, events, i);
    RunFaithful(net, states, events, i);
    if x :| x in s.log[v] && x.payload == payload {
      assert EntryFaithful(s, x);
    }
    if id :| id in s.floods && s.floods[id].payload == payload {
      if v == s.floods[id].origin {
        assert OriginLogged(s, id);
      } else {
        FloodIsBreadthFirst(net, states, events, i, id, v);
        var d: nat :| d <= net.config.hopsMax + 2 && net.Distance(s.floods[id].origin, v, d);
        assert id in s.db[v] && RecordLogged(s, v, id);
      }
    }
  }

  // From deliveries to databases

  /** The LSPs a router's deliveries bring to handle_lsp, at the times they arrive. */
  ghost predicate Arrivals(log: seq<Delivered>, decode: Payload -> LinkState.Lsp, ds: seq<LinkState.Delivery>) {
    |ds| == |log| && forall k :: 0 <= k < |log| ==>
      ds[k].lsp == decode(log[k].payload) && Punctual(ds[k].lsp.timestamp, ds[k].now)
  }

  /** The form in which an LSP is stored. */
  function Stored(lsp: LinkState.Lsp, ttlMax: nat): LinkState.Lsp {
    lsp.(ttl := ClampTtl(lsp.ttl, ttlMax))
  }

  lemma {:induction false} ArrivalsAccepted(log: seq<Delivered>, decode: Payload -> LinkState.Lsp,
                                            ds: seq<LinkState.Delivery>, ttlMax: nat, lsp: LinkState.Lsp)
    requires Arrivals(log, decode, ds)
    ensures lsp in LinkState.Accepted(ds, ttlMax) <==> exists x :: x in log && lsp == Stored(decode(x.payload), ttlMax)
    decreases |log|
  {
    if log != [] {
      assert log == [log[0]] + log[1..];
      ArrivalsAccepted(log[1..], decode, ds[1..], ttlMax, lsp);
    }
  }

  /** Different flooded LSPs of one originator carry different timestamps. */
  ghost predicate DistinctFloods(s: State, decode: Payload -> LinkState.Lsp) {
    forall i, j :: i in s.floods && j in s.floods ==>
      var l, m := decode(s.floods[i].payload), decode(s.floods[j].payload);
      l.pseudonym == m.pseudonym && l.timestamp == m.timestamp ==> l == m
  }

  /** An LSP a router accepted is one that was flooded, in stored form, and conversely. */
  lemma AcceptedIsFlooded(net: Network, states: seq<State>, events: seq<Event>, i: nat, v: Node,
                          decode: Payload -> LinkState.Lsp, ds: seq<LinkState.Delivery>, ttlMax: nat, lsp: LinkState.Lsp)
    requires Run(net, states, events) && i < |states| && v < |net.neighbors| == |states[i].log|
    requires forall k :: 0 <= k < |events| ==> Timely(events[k])
    requires forall id :: id in states[i].floods ==> Quiescent(states[i], id) && InReach(net, states[i], id, v)
    requires Arrivals(states[i].log[v], decode, ds)
    ensures lsp in LinkState.Accepted(ds, ttlMax) <==>
            exists id :: id in states[i].floods && lsp == Stored(decode(states[i].floods[id].payload), ttlMax)
  {
    var s := states[i];
    ArrivalsAccepted(s.log[v], decode, ds, ttlMax, lsp);
    if x :| x in s.log[v] && lsp == Stored(decode(x.payload), ttlMax) {
      DeliveredExactly(net, states, events, i, v, x.payload);
      var id :| id in s.floods && s.floods[id].payload == x.payload;
      assert lsp == Stored(decode(s.floods[id].payload), ttlMax);
    }
    if id :| id in s.floods && lsp == Stored(decode(s.floods[id].payload), ttlMax) {
      DeliveredExactly(net, states, events, i, v, s.floods[id].payload);
    }
  }

  /** In every run of any number of floods, with messages reordered and duplicated at will: when
      the floods have died out, two routers in reach of all originators hold the same database,
      hence the same graph to route on. */
  lemma DatabasesSynchronize(net: Network, states: seq<State>, events: seq<Event>, i: nat, v: Node, w: Node,
                             decode: Payload -> LinkState.Lsp, dv: seq<LinkState.Delivery>, dw: seq<LinkState.Delivery>,
                             ttlMax: nat)
    requires Run(net, states, events) && i < |states|
    requires v < |net.neighbors| == |states[i].log| && w < |net.neighbors|
    requires forall k :: 0 <= k < |events| ==> Timely(events[k])
    requires forall id :: id in states[i].floods ==> Quiescent(states[i], id)
    requires forall id :: id in states[i].floods ==> InReach(net, states[i], id, v) && InReach(net, states[i], id, w)
    requires Arrivals(states[i].log[v], decode, dv) && Arrivals(states[i].log[w], decode, dw)
    requires DistinctFloods(states[i], decode)
    ensures LinkState.MergeAll(map[], LinkState.Accepted(dv, ttlMax)) ==
            LinkState.MergeAll(map[], LinkState.Accepted(dw, ttlMax))
  {
    var a, b := LinkState.Accepted(dv, ttlMax), LinkState.Accepted(dw, ttlMax);
    forall l ensures l in a <==> l in b {
      AcceptedIsFlooded(net, states, events, i, v, decode, dv, ttlMax, l);
      AcceptedIsFlooded(net, states, events, i, w, decode, dw, ttlMax, l);
    }
    forall l, m | l in a && m in a && l.pseudonym == m.pseudonym && l.timestamp == m.timestamp ensures l == m {
      AcceptedIsFlooded(net, states, events, i, v, decode, dv, ttlMax, l);
      AcceptedIsFlooded(net, states, events, i, v, decode, dv, ttlMax, m);
    }
    LinkState.Convergence(a, b);
  }
}
