/** prism/client/routing.py, prism/common/message_utils.py and the peel side in
    prism/server/CS2/roles/emix.py, with encryption as a symbolic constructor that only the
    server it names can open. */
module Onion {
  import opened Wrappers

  type Pseudonym = nat
  type Channel = nat

  datatype Role = EMIX | DROPBOX | DROPBOX_LF | OtherRole(name: nat) {
    predicate IsDropbox() {
      DROPBOX? || DROPBOX_LF?
    }
  }

  /** address channels are those of the server's link addresses. */
  datatype Server = Server(pseudonym: Pseudonym, role: Role, channels: seq<Channel>)

  datatype MsgType =
    | ENCRYPT_EMIX_MESSAGE | ENCRYPT_DROPBOX_MESSAGE | ENCRYPT_PEER_MESSAGE
    | SEND_TO_EMIX | SEND_TO_DROPBOX | LINK_REQUEST | OtherType(code: nat)

  datatype Message =
    | Plain(msgType: MsgType, pseudonym: Option<Pseudonym>, payload: nat)
    | Relay(msgType: MsgType, sub: Message, hopCount: nat)
    | Sealed(msgType: MsgType, pseudonym: Option<Pseudonym>, reader: Pseudonym, inner: Message)
  {
    function Addressee(): Option<Pseudonym> {
      if Relay? then None else pseudonym
    }
  }

  function EncryptedType(role: Role): MsgType {
    if role == EMIX then ENCRYPT_EMIX_MESSAGE
    else if role.IsDropbox() then ENCRYPT_DROPBOX_MESSAGE
    else ENCRYPT_PEER_MESSAGE
  }

  function EncryptMessage(server: Server, message: Message, includePseudonym: bool): Message {
    Sealed(EncryptedType(server.role), if includePseudonym then Some(server.pseudonym) else None,
           server.pseudonym, message)
  }

  function EmixForward(emix: Server, target: Server, message: Message): Message {
    var msgType := if target.role == EMIX then SEND_TO_EMIX
                   else if target.role.IsDropbox() then SEND_TO_DROPBOX
                   else SEND_TO_EMIX;
    EncryptMessage(emix, Relay(msgType, message, 1), true)
  }

  /** The layers around a message, outermost for the head of the route. */
  function Wrapped(route: seq<Server>, target: Server, message: Message): Message {
    if route == [] then message
    else EmixForward(route[0], if |route| == 1 then target else route[1], Wrapped(route[1..], target, message))
  }

  /** A layer: for the server's key and under its pseudonym, of the type its role takes, around a
      request to forward one hop on, of the type the next server's role takes. */
  lemma LayerShape(route: seq<Server>, target: Server, message: Message)
    requires route != []
    ensures var next := if |route| == 1 then target else route[1];
            Wrapped(route, target, message) ==
            Sealed(if route[0].role == EMIX then ENCRYPT_EMIX_MESSAGE
                   else if route[0].role == DROPBOX || route[0].role == DROPBOX_LF then ENCRYPT_DROPBOX_MESSAGE
                   else ENCRYPT_PEER_MESSAGE,
                   Some(route[0].pseudonym), route[0].pseudonym,
                   Relay(if next.role == DROPBOX || next.role == DROPBOX_LF then SEND_TO_DROPBOX else SEND_TO_EMIX,
                         Wrapped(route[1..], target, message), 1))
  {
  }

  method Wrap(route: seq<Server>, target0: Server, message0: Message) returns (message: Message)
    ensures message == Wrapped(route, target0, message0)
  {
    message := message0;
    var target := target0;
    for i := |route| downto 0
      invariant message == Wrapped(route[i..], target0, message0)
      invariant target == if i == |route| then target0 else route[i]
    {
      assert route[i..][1..] == route[i + 1..];
      message := EmixForward(route[i], target, message);
      target := route[i];
    }
    assert route[0..] == route;
  }

  // Peeling

  /** What an EMIX forwards, and to whom; None when its hook does not match, the message is not
      for its key, or the type assertion of mix_message fails. */
  function Peel(me: Server, message: Message): Option<(Message, Option<Pseudonym>)> {
    if message.msgType != ENCRYPT_EMIX_MESSAGE || message.Addressee() != Some(me.pseudonym) then None
    else if !message.Sealed? || message.reader != me.pseudonym then None
    else
      var decrypted := message.inner;
      if decrypted.msgType == LINK_REQUEST || !decrypted.Relay? then None
      else
        var sub := decrypted.sub;
        if (decrypted.msgType == SEND_TO_EMIX && sub.msgType == ENCRYPT_EMIX_MESSAGE) ||
           (decrypted.msgType == SEND_TO_DROPBOX && sub.msgType == ENCRYPT_DROPBOX_MESSAGE)
        then Some((sub, sub.Addressee())) else None
  }

  /** The message after every member of the route has peeled its layer, each named by the one
      before; the target is named by the last. */
  function Travel(route: seq<Server>, target: Server, message: Message): Option<Message> {
    if route == [] then Some(message) else
      var peeled := Peel(route[0], message);
      var next := if |route| == 1 then target else route[1];
      if peeled.None? || peeled.value.1 != Some(next.pseudonym) then None
      else Travel(route[1..], target, peeled.value.0)
  }

  /** The message is of the type an EMIX may hand to the target, and addressed to it. */
  predicate FitsTarget(target: Server, message: Message) {
    && message.Addressee() == Some(target.pseudonym)
    && (if target.role.IsDropbox() then message.msgType == ENCRYPT_DROPBOX_MESSAGE
        else message.msgType == ENCRYPT_EMIX_MESSAGE)
  }

  /** The onion arrives, with the original message, exactly if all route members are EMIXes and
      the message fits the target. */
  lemma {:induction false} OnionArrives(route: seq<Server>, target: Server, message: Message)
    requires route != []
    ensures Travel(route, target, Wrapped(route, target, message)) ==
            if (forall s :: s in route ==> s.role == EMIX) && FitsTarget(target, message) then Some(message) else None
  {
    var rest := route[1..];
    var layer := Wrapped(route, target, message);
    if |route| == 1 {
      assert rest == [] && route == [route[0]];
    } else {
      OnionArrives(rest, target, message);
      assert route == [route[0]] + rest;
      assert Wrapped(rest, target, message).Addressee() == Some(route[1].pseudonym);
    }
  }

  /** Only the server a layer was made for can peel it. */
  lemma OthersCannotPeel(route: seq<Server>, target: Server, message: Message, other: Server)
    requires route != [] && other.pseudonym != route[0].pseudonym
    ensures Peel(other, Wrapped(route, target, message)).None?
  {
  }

  /** What a dropbox client puts into the onion fits the dropbox. */
  lemma DropboxRequestFits(dropbox: Server, request: Message)
    ensures FitsTarget(dropbox, EncryptMessage(dropbox, request, true)) <==> dropbox.role.IsDropbox() || dropbox.role == EMIX
  {
  }

  // Finding a route

  datatype Route = Route(hops: seq<Server>, channel: Channel, target: Server)

  function ChannelsOf(servers: seq<Server>): set<Channel> {
    set s, c | s in servers && c in s.channels :: c
  }

  function ServerChannels(live: set<Channel>, servers: seq<Server>): set<Channel> {
    ChannelsOf(servers) * live
  }

  function Filter(servers: seq<Server>, keep: Server -> bool): (r: seq<Server>)
    ensures forall s :: s in r <==> s in servers && keep(s)
  {
    if servers == [] then [] else (if keep(servers[0]) then [servers[0]] else []) + Filter(servers[1..], keep)
  }

  lemma FilterNone(servers: seq<Server>, keep: Server -> bool)
    requires forall s :: s in servers ==> !keep(s)
    ensures Filter(servers, keep) == []
  {
    var r := Filter(servers, keep);
    assert forall s :: s !in r;
  }

  /** The servers with addresses. */
  function Pool(reachable: seq<Server>): (pool: seq<Server>)
    ensures forall s :: s in pool <==> s in reachable && s.channels != []
  {
    Filter(reachable, (s: Server) => s.channels != [])
  }

  function ChannelsUsed(used: seq<Route>): set<Channel> {
    set r | r in used :: r.channel
  }

  predicate Novel(live: set<Channel>, used: seq<Route>, s: Server) {
    ServerChannels(live, [s]) - ChannelsUsed(used) != {}
  }

  /** Servers with an unused live channel, if there are any; among them unused starts, if any. */
  function Candidates(pool: seq<Server>, live: set<Channel>, used: seq<Route>): (candidates: seq<Server>)
    requires forall r :: r in used ==> r.hops != []
    ensures forall s :: s in candidates ==> s in pool
    ensures forall s, t :: s in candidates && t in pool && Novel(live, used, t) ==> Novel(live, used, s)
  {
    var novel := Filter(pool, (s: Server) => Novel(live, used, s));
    var channelCandidates := if novel == [] then pool else novel;
    var startsUsed := set r | r in used :: r.hops[0].pseudonym;
    var unusedStarts := Filter(channelCandidates, (s: Server) => s.pseudonym !in startsUsed);
    if unusedStarts == [] then channelCandidates else unusedStarts
  }

  /** Servers with an unused live channel, or all of them if none has one. */
  ghost predicate Eligible(pool: seq<Server>, live: set<Channel>, used: seq<Route>, s: Server) {
    s in pool && (Novel(live, used, s) || forall t :: t in pool ==> !Novel(live, used, t))
  }

  predicate UnusedStart(used: seq<Route>, s: Server)
    requires forall r :: r in used ==> r.hops != []
  {
    forall r :: r in used ==> r.hops[0].pseudonym != s.pseudonym
  }

  /** Offered are the eligible servers that no route started from, or all eligible ones if there is
      no such server. */
  lemma OfferedExactly(pool: seq<Server>, live: set<Channel>, used: seq<Route>, s: Server)
    requires forall r :: r in used ==> r.hops != []
    ensures s in Candidates(pool, live, used) <==>
            Eligible(pool, live, used, s) &&
            (UnusedStart(used, s) || forall t :: Eligible(pool, live, used, t) ==> !UnusedStart(used, t))
  {
    var novel := Filter(pool, (s: Server) => Novel(live, used, s));
    var channelCandidates := if novel == [] then pool else novel;
    var startsUsed := set r | r in used :: r.hops[0].pseudonym;
    assert novel != [] ==> novel[0] in novel;
    forall t ensures t in channelCandidates <==> Eligible(pool, live, used, t) {
      assert Novel(live, used, t) && t in pool ==> t in novel;
    }
    forall t: Server ensures UnusedStart(used, t) <==> t.pseudonym !in startsUsed {
    }
    var unusedStarts := Filter(channelCandidates, (s: Server) => s.pseudonym !in startsUsed);
    assert unusedStarts != [] ==> unusedStarts[0] in unusedStarts;
  }

  /** Heads to start from, and the channels to use. */
  function FindStart(reachable: seq<Server>, live: set<Channel>, used: seq<Route>): (seq<Server>, set<Channel>)
    requires forall r :: r in used ==> r.hops != []
  {
    var pool := Pool(reachable);
    if used == [] then (pool, ServerChannels(live, pool))
    else if pool == [] then ([], {})
    else
      var candidates := Candidates(pool, live, used);
      var channels := ServerChannels(live, candidates);
      (candidates, if channels <= ChannelsUsed(used) then ChannelsUsed(used) else channels - ChannelsUsed(used))
  }

  /** The final choice of a channel is not made from nothing. */
  ghost predicate HasChoice(start: Server, channels: set<Channel>) {
    exists c :: c in start.channels && c in channels
  }

  lemma OnServer(live: set<Channel>, s: Server, c: Channel)
    ensures c in ServerChannels(live, [s]) <==> c in s.channels && c in live
  {
    assert s in [s];
  }

  lemma OnServers(live: set<Channel>, servers: seq<Server>, s: Server, c: Channel)
    requires s in servers && c in s.channels && c in live
    ensures c in ServerChannels(live, servers)
  {
  }

  /** What the starts and the channels are once routes were used. */
  lemma StartsAfterUse(reachable: seq<Server>, live: set<Channel>, used: seq<Route>, start: Server)
    requires used != [] && forall r :: r in used ==> r.hops != []
    requires start in FindStart(reachable, live, used).0
    ensures start in Pool(reachable)
    ensures (exists s :: s in Pool(reachable) && Novel(live, used, s)) ==> Novel(live, used, start)
    ensures !Novel(live, used, start) ==> FindStart(reachable, live, used).1 == ChannelsUsed(used)
    ensures Novel(live, used, start) ==>
              FindStart(reachable, live, used).1 ==
              ServerChannels(live, FindStart(reachable, live, used).0) - ChannelsUsed(used)
  {
    var candidates := Candidates(Pool(reachable), live, used);
    if Novel(live, used, start) {
      var c :| c in ServerChannels(live, [start]) && c !in ChannelsUsed(used);
      OnServer(live, start, c);
      OnServers(live, candidates, start, c);
    } else {
      forall c | c in ServerChannels(live, candidates) ensures c in ChannelsUsed(used) {
        var s :| s in candidates && c in s.channels;
        OnServer(live, s, c);
        assert !Novel(live, used, s);
        assert c in ServerChannels(live, [s]) - ChannelsUsed(used) || c in ChannelsUsed(used);
      }
    }
  }

  /** For every start that is offered, whether a channel can be chosen for it. Before any route was
      used it needs a live channel of its own. Later, if some server has an unused live channel,
      every start offered has one; otherwise a start needs a channel used before, live or not. */
  lemma StartHasChannel(reachable: seq<Server>, live: set<Channel>, used: seq<Route>, start: Server)
    requires forall r :: r in used ==> r.hops != []
    requires start in FindStart(reachable, live, used).0
    ensures start in Pool(reachable)
    ensures HasChoice(start, FindStart(reachable, live, used).1) <==>
            if used == [] then HasChoice(start, live)
            else (exists s :: s in Pool(reachable) && Novel(live, used, s)) || HasChoice(start, ChannelsUsed(used))
  {
    var channels := FindStart(reachable, live, used).1;
    if used == [] {
      if HasChoice(start, live) {
        var c :| c in start.channels && c in live;
        OnServers(live, Pool(reachable), start, c);
      }
    } else {
      StartsAfterUse(reachable, live, used, start);
      if Novel(live, used, start) {
        var c :| c in ServerChannels(live, [start]) && c !in ChannelsUsed(used);
        OnServer(live, start, c);
        OnServers(live, FindStart(reachable, live, used).0, start, c);
        assert c in channels;
      }
    }
  }

  /** A server none of whose channels is live is offered all the same, with nothing to choose from. */
  lemma DeadStartOffered(start: Server)
    requires start.channels != []
    ensures start in FindStart([start], {}, []).0 && !HasChoice(start, FindStart([start], {}, []).1)
  {
    assert start in Pool([start]);
  }

  /** A channel that is no longer live may be offered. */
  lemma DeadChannelOffered(start: Server, c: Channel, r: Route)
    requires start.channels == [c] && r.hops == [start] && r.channel == c
    ensures start in FindStart([start], {}, [r]).0 && c in FindStart([start], {}, [r]).1
  {
    var pool, startsUsed := Pool([start]), set t | t in [r] :: t.hops[0].pseudonym;
    assert r in [r] && start in pool && start.pseudonym in startsUsed;
    FilterNone(pool, (s: Server) => Novel({}, [r], s));
    FilterNone(pool, (s: Server) => s.pseudonym !in startsUsed);
    assert Candidates(pool, {}, [r]) == pool;
    StartsAfterUse([start], {}, [r], start);
  }
}
