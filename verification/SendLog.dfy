/** prism/client/send_log.py, with the step of prism/client/client.py that adds routes to an entry.
    Clocks, the server database's verdicts, shuffles and the outcomes of posting are inputs. */
module SendLog {
  import opened Wrappers

  type Server = nat

  datatype Route = Route(hops: seq<Server>, target: Server, timestamp: int) {
    predicate IsDead(reachable: set<Server>) {
      target !in reachable || exists s :: s in hops && s !in reachable
    }
  }

  predicate Distinct<T(==)>(s: seq<T>) {
    forall i, j :: 0 <= i < j < |s| ==> s[i] != s[j]
  }

  function Targets(routes: seq<Route>): (ts: seq<Server>)
    ensures |ts| == |routes| && forall i :: 0 <= i < |ts| ==> ts[i] == routes[i].target
  {
    seq(|routes|, i requires 0 <= i < |routes| => routes[i].target)
  }

  /** The routes all of whose servers can be reached, in order. */
  function Alive(routes: seq<Route>, reachable: set<Server>): seq<Route> {
    if routes == [] then [] else
      var front, last := Alive(routes[..|routes| - 1], reachable), routes[|routes| - 1];
      if last.IsDead(reachable) then front else front + [last]
  }

  /** Route by route, in order: one stays, as it is, exactly if its target and all its hops can be
      reached. */
  lemma {:induction false} AliveOneByOne(a: seq<Route>, r: Route, b: seq<Route>, reachable: set<Server>)
    ensures Alive([], reachable) == []
    ensures Alive(a + [r] + b, reachable) ==
            Alive(a, reachable) +
            (if r.target in reachable && (forall s :: s in r.hops ==> s in reachable) then [r] else []) +
            Alive(b, reachable)
    decreases |b|
  {
    var all := a + [r] + b;
    if b == [] {
      assert all == a + [r] && all[..|all| - 1] == a;
    } else {
      var front := b[..|b| - 1];
      AliveOneByOne(a, r, front, reachable);
      assert all[..|all| - 1] == a + [r] + front && all[|all| - 1] == b[|b| - 1];
    }
  }

  lemma {:induction false} AliveRoutes(routes: seq<Route>, reachable: set<Server>)
    ensures |Alive(routes, reachable)| <= |routes|
    ensures forall r :: r in Alive(routes, reachable) <==> r in routes && !r.IsDead(reachable)
    ensures Distinct(Targets(routes)) ==> Distinct(Targets(Alive(routes, reachable)))
  {
    if routes != [] {
      var front, last := routes[..|routes| - 1], routes[|routes| - 1];
      AliveRoutes(front, reachable);
      assert routes == front + [last];
      if Distinct(Targets(routes)) {
        assert Distinct(Targets(front)) by {
          forall i, j | 0 <= i < j < |front| ensures Targets(front)[i] != Targets(front)[j] {
            assert Targets(routes)[i] != Targets(routes)[j];
          }
        }
        forall r | r in front ensures r.target != last.target {
          var i :| 0 <= i < |front| && front[i] == r;
          assert Targets(routes)[i] != Targets(routes)[|front|];
        }
      }
    }
  }

  /** dropbox_send_redundancy and client_retain_message_sec. */
  datatype Config = Config(redundancy: nat, retain: int)

  function LatestFrom(routes: seq<Route>, latest: int): int {
    if routes == [] then latest
    else LatestFrom(routes[1..], if routes[0].timestamp > latest then routes[0].timestamp else latest)
  }

  predicate Enough(routes: seq<Route>, config: Config) {
    config.redundancy - |routes| < 1
  }

  predicate LongAgo(routes: seq<Route>, config: Config, now: int)
    requires config.redundancy >= 1
  {
    Enough(routes, config) && now - LatestFrom(routes[1..], routes[0].timestamp) > config.retain
  }

  lemma {:induction false} LatestIsMaximum(routes: seq<Route>, latest: int)
    ensures LatestFrom(routes, latest) >= latest
    ensures forall r :: r in routes ==> LatestFrom(routes, latest) >= r.timestamp
    ensures LatestFrom(routes, latest) == latest || exists r :: r in routes && LatestFrom(routes, latest) == r.timestamp
  {
    if routes != [] {
      LatestIsMaximum(routes[1..], if routes[0].timestamp > latest then routes[0].timestamp else latest);
      assert routes == [routes[0]] + routes[1..];
    }
  }

  /** Safe means sent as often as asked for, and every send longer ago than messages are retained. */
  lemma SafeMeans(entry: SendLogEntry, config: Config, now: int)
    requires config.redundancy >= 1
    ensures entry.Safe(config, now) <==>
            |entry.routesSent| >= config.redundancy && forall r :: r in entry.routesSent ==> now - r.timestamp > config.retain
  {
    if entry.Finished(config) {
      var first, rest := entry.routesSent[0], entry.routesSent[1..];
      LatestIsMaximum(rest, first.timestamp);
      assert entry.routesSent == [first] + rest;
    }
  }

  class SendLogEntry {
    const message: nat
    var routesSent: seq<Route>

    constructor (message: nat)
      ensures this.message == message && routesSent == []
    {
      this.message := message;
      routesSent := [];
    }

    predicate Finished(config: Config)
      reads this
    {
      Enough(routesSent, config)
    }

    /** Finished, and the last send is longer ago than messages are retained. */
    predicate Safe(config: Config, now: int)
      requires config.redundancy >= 1
      reads this
    {
      LongAgo(routesSent, config, now)
    }

    /** Never more routes than asked for, all to different dropboxes. */
    ghost predicate WellRouted(config: Config)
      reads this
    {
      |routesSent| <= config.redundancy && Distinct(Targets(routesSent))
    }

    method InvalidateRoutes(reachable: set<Server>)
      modifies this
      ensures routesSent == Alive(old(routesSent), reachable)
      ensures |routesSent| <= |old(routesSent)|
      ensures Distinct(Targets(old(routesSent))) ==> Distinct(Targets(routesSent))
    {
      AliveRoutes(routesSent, reachable);
      var alive := [];
      for i := 0 to |routesSent|
        invariant routesSent == old(routesSent)
        invariant alive == Alive(routesSent[..i], reachable)
      {
        assert routesSent[..i + 1][..i] == routesSent[..i];
        if !routesSent[i].IsDead(reachable) {
          alive := alive + [routesSent[i]];
        }
      }
      assert routesSent[..|routesSent|] == routesSent;
      routesSent := alive;
    }

    method Sent(route: Route)
      modifies this
      ensures routesSent == old(routesSent) + [route]
    {
      routesSent := routesSent + [route];
    }

    /** The candidates this entry was not sent to yet. */
    function Candidates(dropboxes: seq<Server>): (ts: seq<Server>)
      reads this
      ensures forall t :: t in ts <==> t in dropboxes && t !in Targets(routesSent)
    {
      if dropboxes == [] then [] else
        (if dropboxes[0] in Targets(routesSent) then [] else [dropboxes[0]]) + Candidates(dropboxes[1..])
    }

    /** What attempt_send is given: the unsent candidates in some order, and for each the route that
        was found and posted, if that worked. */
    ghost predicate CanTry(dropboxes: seq<Server>, shuffled: seq<Server>, posted: seq<Option<Route>>)
      reads this
    {
      && Distinct(shuffled) && (forall t :: t in shuffled <==> t in Candidates(dropboxes))
      && |posted| == |shuffled|
      && forall i :: 0 <= i < |posted| && posted[i].Some? ==> posted[i].value.target == shuffled[i]
    }

    /** The loop of attempt_send over targets[0:sends_remaining]. An exception may end it earlier,
        before target number stop. */
    method Try(config: Config, ghost dropboxes: seq<Server>, ghost shuffled: seq<Server>,
               posted: seq<Option<Route>>, stop: nat)
      requires WellRouted(config) && CanTry(dropboxes, shuffled, posted)
      modifies this
      ensures WellRouted(config)
      ensures routesSent == old(routesSent) + Somes(posted[..Tries(stop, |posted|, config.redundancy - |old(routesSent)|)])
      ensures forall k :: |old(routesSent)| <= k < |routesSent| ==>
                routesSent[k].target in dropboxes && routesSent[k].target !in Targets(old(routesSent))
    {
      ghost var before := routesSent;
      assert forall t :: t in shuffled ==> t in dropboxes && t !in Targets(before);
      var remaining := config.redundancy - |routesSent|;
      for i := 0 to Tries(stop, |posted|, remaining)
        invariant routesSent == before + Somes(posted[..i]) && |routesSent| <= |before| + i
        invariant Distinct(Targets(routesSent))
        invariant forall r :: r in Somes(posted[..i]) ==> r.target in shuffled[..i]
      {
        assert shuffled[..i + 1] == shuffled[..i] + [shuffled[i]];
        assert posted[..i + 1][..i] == posted[..i];
        if posted[i].Some? {
          NewTarget(before, Somes(posted[..i]), shuffled, i);
          Sent(posted[i].value);
        }
      }
    }
  }

  function Least(a: int, b: int): int {
    if a < b then a else b
  }

  /** How many targets are tried: no more than there are, than are asked for, and than come before
      the stop. */
  function Tries(stop: nat, targets: nat, remaining: int): (n: nat)
    ensures n <= targets && n <= stop && (remaining >= 0 ==> n == Least(stop, Least(targets, remaining)))
  {
    var n := Least(stop, Least(targets, remaining));
    if n < 0 then 0 else n
  }

  // Places: every entry is in exactly one of them

  /** A sequence without duplicates is, as a multiset, its set of members. */
  lemma {:induction false} DistinctMultiset<T>(s: seq<T>, e: T)
    requires Distinct(s)
    ensures multiset(s)[e] == if e in s then 1 else 0
  {
    if s != [] {
      var front, last := s[..|s| - 1], s[|s| - 1];
      assert s == front + [last];
      DistinctMultiset(front, e);
    }
  }

  /** Each added entry is in one of the places, once. */
  ghost predicate Placed<T>(added: set<T>, backlog: seq<T>, complete: seq<T>, retired: set<T>, inHand: set<T>) {
    multiset(backlog) + multiset(complete) + multiset(retired) + multiset(inHand) == multiset(added)
  }

  lemma ElementTwice<T>(s: seq<T>, i: nat, j: nat)
    requires i < j < |s| && s[i] == s[j]
    ensures multiset(s)[s[i]] >= 2
  {
    assert s == s[..i] + [s[i]] + s[i + 1..j] + [s[j]] + s[j + 1..];
  }

  lemma AtMostOnce<T>(s: seq<T>)
    requires forall e :: multiset(s)[e] <= 1
    ensures Distinct(s)
  {
    forall i, j | 0 <= i < j < |s| ensures s[i] != s[j] {
      if s[i] == s[j] {
        ElementTwice(s, i, j);
      }
    }
  }

  lemma PlacedApart<T>(added: set<T>, backlog: seq<T>, complete: seq<T>, retired: set<T>, inHand: set<T>)
    requires Placed(added, backlog, complete, retired, inHand)
    ensures Distinct(backlog) && Distinct(complete)
    ensures forall e :: e in added <==> e in backlog || e in complete || e in retired || e in inHand
    ensures forall e :: e in backlog ==> e !in complete && e !in retired && e !in inHand
    ensures forall e :: e in complete ==> e !in retired && e !in inHand
    ensures forall e :: e in retired ==> e !in inHand
  {
    var all := multiset(added);
    forall e
      ensures e in added <==> multiset(backlog)[e] + multiset(complete)[e] + multiset(retired)[e] + multiset(inHand)[e] == 1
      ensures multiset(backlog)[e] + multiset(complete)[e] + multiset(retired)[e] + multiset(inHand)[e] <= 1
    {
      assert all[e] == multiset(backlog)[e] + multiset(complete)[e] + multiset(retired)[e] + multiset(inHand)[e];
    }
    AtMostOnce(backlog);
    AtMostOnce(complete);
  }

  lemma PlacedTogether<T>(added: set<T>, backlog: seq<T>, complete: seq<T>, retired: set<T>, inHand: set<T>)
    requires Distinct(backlog) && Distinct(complete)
    requires forall e :: e in added <==> e in backlog || e in complete || e in retired || e in inHand
    requires forall e :: e in backlog ==> e !in complete && e !in retired && e !in inHand
    requires forall e :: e in complete ==> e !in retired && e !in inHand
    requires forall e :: e in retired ==> e !in inHand
    ensures Placed(added, backlog, complete, retired, inHand)
  {
    var sum := multiset(backlog) + multiset(complete) + multiset(retired) + multiset(inHand);
    forall e ensures sum[e] == multiset(added)[e] {
      DistinctMultiset(backlog, e);
      DistinctMultiset(complete, e);
    }
  }

  /** Completed entries that each move to one of the other places, or stay. */
  lemma Redistributed<T>(added: set<T>, backlog: seq<T>, complete: seq<T>, retired: set<T>, inHand: set<T>,
                         queue: seq<T>, kept: seq<T>, dropped: set<T>)
    requires Placed(added, backlog, complete, retired, inHand)
    requires Distinct(queue) && Distinct(kept)
    requires forall e :: e in backlog ==> e in queue
    requires forall e :: e in queue ==> e in backlog || (e in complete && e !in kept && e !in dropped)
    requires forall e :: e in kept ==> e in complete && e !in dropped
    requires forall e :: e in dropped ==> e in complete
    requires forall e :: e in complete ==> e in queue || e in kept || e in dropped
    ensures Placed(added, queue, kept, retired + dropped, inHand)
  {
    PlacedApart(added, backlog, complete, retired, inHand);
    PlacedTogether(added, queue, kept, retired + dropped, inHand);
  }

  /** The chosen elements, in order. */
  ghost function Picked<T>(s: seq<T>, chosen: set<T>): seq<T> {
    if s == [] then [] else
      var front, last := Picked(s[..|s| - 1], chosen), s[|s| - 1];
      if last in chosen then front + [last] else front
  }

  lemma {:induction false} PickedMembers<T>(s: seq<T>, chosen: set<T>)
    ensures forall e :: e in Picked(s, chosen) <==> e in s && e in chosen
    ensures Distinct(s) ==> Distinct(Picked(s, chosen))
  {
    if s != [] {
      var front := s[..|s| - 1];
      PickedMembers(front, chosen);
      assert s == front + [s[|s| - 1]];
      if Distinct(s) {
        assert forall i :: 0 <= i < |front| ==> front[i] == s[i];
      }
    }
  }

  /** Picked elements at the end of a queue that has none of them. */
  lemma QueueGrows<T>(before: seq<T>, complete: seq<T>, left: set<T>)
    requires Distinct(before) && Distinct(complete) && forall e :: e in complete ==> e !in before
    ensures Distinct(before + Picked(complete, left))
    ensures forall e :: e in before + Picked(complete, left) <==> e in before || (e in complete && e in left)
  {
    PickedMembers(complete, left);
    var picked := Picked(complete, left);
    forall i, j | 0 <= i < j < |before + picked| ensures (before + picked)[i] != (before + picked)[j] {
      if i < |before| <= j {
        assert picked[j - |before|] in picked;
      }
    }
  }

  lemma PickedSnoc<T>(s: seq<T>, i: nat, chosen: set<T>)
    requires i < |s|
    ensures Picked(s[..i + 1], chosen) == Picked(s[..i], chosen) + if s[i] in chosen then [s[i]] else []
  {
    assert s[..i + 1][..i] == s[..i];
  }

  class SendLog {
    const config: Config
    var backlog: seq<SendLogEntry>
    var complete: seq<SendLogEntry>

    /** All entries ever added, those dropped for good, and the one being attempted, if any. */
    ghost var added: set<SendLogEntry>
    ghost var retired: set<SendLogEntry>
    ghost var inHand: set<SendLogEntry>

    /** Every entry is in exactly one place, once. */
    ghost predicate Conserved()
      reads this
    {
      Placed(added, backlog, complete, retired, inHand) && |inHand| <= 1
    }

    ghost predicate Valid()
      reads this, added
    {
      && config.redundancy >= 1 && Conserved()
      && (forall e :: e in added ==> e.WellRouted(config))
      && (forall e :: e in backlog && e in added ==> !e.Finished(config))
      && (forall e :: e in complete && e in added ==> e.Finished(config))
      && (forall e :: e in retired && e in added ==> e.Finished(config))
    }

    constructor (config: Config)
      requires config.redundancy >= 1
      ensures Valid() && this.config == config && added == {} && backlog == [] && complete == []
    {
      this.config := config;
      backlog, complete := [], [];
      added, retired, inHand := {}, {}, {};
    }

    method Add(message: nat)
      requires Valid()
      modifies this
      ensures Valid() && |backlog| == |old(backlog)| + 1 && backlog[..|backlog| - 1] == old(backlog)
      ensures fresh(backlog[|backlog| - 1]) && backlog[|backlog| - 1].message == message
      ensures added == old(added) + {backlog[|backlog| - 1]}
      ensures complete == old(complete) && retired == old(retired) && inHand == old(inHand)
    {
      PlacedApart(added, backlog, complete, retired, inHand);
      var entry := new SendLogEntry(message);
      backlog := backlog + [entry];
      added := added + {entry};
      PlacedTogether(added, backlog, complete, retired, inHand);
    }

    /** The complete entries that the loss of dead routes leaves unfinished. */
    ghost function LeftUnfinished(reachable: set<Server>): set<SendLogEntry>
      reads this, complete
    {
      set e | e in complete && !Enough(Alive(e.routesSent, reachable), config)
    }

    /** The complete entries that stay finished, and are not safe yet. */
    ghost function LeftUnsafe(reachable: set<Server>, now: int): set<SendLogEntry>
      requires config.redundancy >= 1
      reads this, complete
    {
      set e | e in complete && Enough(Alive(e.routesSent, reachable), config) &&
              !LongAgo(Alive(e.routesSent, reachable), config, now)
    }

    /** Dead routes are dropped; an entry left unfinished returns to the queue, a finished and safe
        one is retired, the others stay, all in order. */
    method CleanupComplete(reachable: set<Server>, now: int)
      requires Valid()
      modifies this, complete
      ensures Valid() && added == old(added) && inHand == old(inHand)
      ensures backlog == old(backlog) + Picked(old(complete), old(LeftUnfinished(reachable)))
      ensures complete == Picked(old(complete), old(LeftUnsafe(reachable, now)))
      ensures old(retired) <= retired
      ensures forall e :: e in old(complete) ==> e.routesSent == Alive(old(e.routesSent), reachable)
      ensures forall e :: e in old(added) && e !in old(complete) ==> e.routesSent == old(e.routesSent)
      ensures forall e :: e in old(complete) ==>
                (e in backlog <==> !e.Finished(config)) && (e in retired <==> e.Safe(config, now))
      ensures forall e :: e in backlog || e in retired ==> e in old(backlog) || e in old(retired) || e in old(complete)
    {
      PlacedApart(added, backlog, complete, retired, inHand);
      ghost var left, stay := LeftUnfinished(reachable), LeftUnsafe(reachable, now);
      Requeue(reachable, left);
      Retire(now, old(backlog), stay);
    }

    /** The reassignment of complete: requeued entries leave it, and safe ones are retired. */
    method Retire(now: int, ghost before: seq<SendLogEntry>, ghost stay: set<SendLogEntry>)
      requires config.redundancy >= 1 && |inHand| <= 1
      requires Placed(added, before, complete, retired, inHand) && Distinct(backlog)
      requires forall e :: e in backlog <==> e in before || (e in complete && !e.Finished(config))
      requires forall e :: e in added ==> e.WellRouted(config)
      requires forall e :: e in backlog && e in added ==> !e.Finished(config)
      requires forall e :: e in retired && e in added ==> e.Finished(config)
      requires forall e :: e in stay <==> e in complete && e.Finished(config) && !e.Safe(config, now)
      modifies this`complete, this`retired
      ensures Valid() && complete == Picked(old(complete), stay)
      ensures forall e :: e in retired <==> e in old(retired) || (e in old(complete) && e.Safe(config, now))
    {
      PlacedApart(added, before, complete, retired, inHand);
      var kept, dropped := Unsafe(now, stay);
      PickedMembers(complete, stay);
      Redistributed(added, before, complete, retired, inHand, backlog, kept, dropped);
      complete, retired := kept, retired + dropped;
    }

    /** The comprehension of cleanup_complete: finished entries that are not safe yet. */
    method Unsafe(now: int, ghost stay: set<SendLogEntry>)
      returns (kept: seq<SendLogEntry>, ghost dropped: set<SendLogEntry>)
      requires config.redundancy >= 1
      requires forall e :: e in stay <==> e in complete && e.Finished(config) && !e.Safe(config, now)
      ensures kept == Picked(complete, stay)
      ensures forall e :: e in dropped <==> e in complete && e.Safe(config, now)
    {
      kept := [];
      for i := 0 to |complete|
        invariant kept == Picked(complete[..i], stay)
      {
        PickedSnoc(complete, i, stay);
        if complete[i].Finished(config) && !complete[i].Safe(config, now) {
          kept := kept + [complete[i]];
        }
      }
      assert complete[..|complete|] == complete;
      dropped := set e | e in complete && e.Safe(config, now);
    }

    /** The loop of cleanup_complete; complete still holds the requeued entries afterwards. */
    method Requeue(reachable: set<Server>, ghost left: set<SendLogEntry>)
      requires Distinct(backlog) && Distinct(complete)
      requires forall e :: e in complete ==> e in added && e !in backlog
      requires forall e :: e in added ==> e.WellRouted(config)
      requires forall e :: e in backlog ==> !e.Finished(config)
      requires forall e :: e in left <==> e in complete && !Enough(Alive(e.routesSent, reachable), config)
      modifies this`backlog, complete
      ensures backlog == old(backlog) + Picked(complete, left) && Distinct(backlog)
      ensures forall e :: e in backlog <==> e in old(backlog) || (e in complete && !e.Finished(config))
      ensures forall e :: e in backlog ==> !e.Finished(config)
      ensures forall e :: e in complete ==> e.routesSent == Alive(old(e.routesSent), reachable)
      ensures forall e :: e in added && e !in complete ==> e.routesSent == old(e.routesSent)
      ensures forall e :: e in added ==> e.WellRouted(config)
    {
      ghost var before := seq(|complete|, k requires 0 <= k < |complete| reads this, complete => complete[k].routesSent);
      assert forall k :: 0 <= k < |complete| ==> complete[k] in complete;
      InvalidateAll(reachable, left, before);
      forall e | e in complete ensures e.WellRouted(config) {
        AliveRoutes(old(e.routesSent), reachable);
      }
      QueueGrows(old(backlog), complete, left);
    }

    method InvalidateAll(reachable: set<Server>, ghost left: set<SendLogEntry>, ghost before: seq<seq<Route>>)
      requires Distinct(complete) && |before| == |complete|
      requires forall k :: 0 <= k < |complete| ==> complete[k].routesSent == before[k]
      requires forall k :: 0 <= k < |complete| ==> (complete[k] in left <==> !Enough(Alive(before[k], reachable), config))
      modifies this`backlog, complete
      ensures backlog == old(backlog) + Picked(complete, left)
      ensures forall k :: 0 <= k < |complete| ==> complete[k].routesSent == Alive(before[k], reachable)
    {
      for i := 0 to |complete|
        invariant backlog == old(backlog) + Picked(complete[..i], left)
        invariant forall k :: 0 <= k < i ==> complete[k].routesSent == Alive(before[k], reachable)
        invariant forall k :: i <= k < |complete| ==> complete[k].routesSent == before[k]
      {
        PickedSnoc(complete, i, left);
        RequeueOne(complete[i], reachable);
      }
      assert complete[..|complete|] == complete;
    }

    method RequeueOne(entry: SendLogEntry, reachable: set<Server>)
      modifies this`backlog, entry
      ensures entry.routesSent == Alive(old(entry.routesSent), reachable)
      ensures backlog == old(backlog) + if Enough(entry.routesSent, config) then [] else [entry]
    {
      entry.InvalidateRoutes(reachable);
      if !entry.Finished(config) {
        backlog := backlog + [entry];
      }
    }

    /** The part of attempt before the yield: null stands for an empty queue. */
    method BeginAttempt(reachable: set<Server>, now: int) returns (entry: SendLogEntry?)
      requires Valid() && inHand == {}
      modifies this, added
      ensures Valid() && added == old(added) && old(retired) <= retired
      ensures forall e :: e in retired && e !in old(retired) ==> e in old(complete) && e.Safe(config, now)
      ensures var queue := old(backlog) + Picked(old(complete), old(LeftUnfinished(reachable)));
              if entry == null then queue == [] && backlog == [] && inHand == {} else queue == [entry] + backlog
      ensures complete == Picked(old(complete), old(LeftUnsafe(reachable, now)))
      ensures entry != null ==> inHand == {entry} && !entry.Finished(config)
      ensures forall e :: e in old(complete) && e != entry ==> e.routesSent == Alive(old(e.routesSent), reachable)
      ensures entry in old(backlog) ==> entry.routesSent == Alive(old(entry.routesSent), reachable)
    {
      PlacedApart(added, backlog, complete, retired, inHand);
      CleanupComplete(reachable, now);
      if backlog == [] {
        return null;
      }
      entry := Take(reachable);
      PlacedApart(added, backlog, complete, retired, inHand);
      assert entry in inHand;
    }

    /** The first entry of the queue, without its dead routes. */
    method Take(reachable: set<Server>) returns (entry: SendLogEntry)
      requires Valid() && inHand == {} && backlog != []
      modifies this`backlog, this`inHand, added
      ensures Valid() && inHand == {entry} && entry in added && !entry.Finished(config)
      ensures old(backlog) == [entry] + backlog
      ensures entry.routesSent == Alive(old(entry.routesSent), reachable)
      ensures forall e :: e in added && e != entry ==> e.routesSent == old(e.routesSent)
    {
      PlacedApart(added, backlog, complete, retired, inHand);
      entry := backlog[0];
      assert entry in backlog;
      backlog := backlog[1..];
      inHand := {entry};
      PlacedTogether(added, backlog, complete, retired, inHand);
      entry.InvalidateRoutes(reachable);
    }

    /** The part of attempt after the yield. */
    method EndAttempt(entry: SendLogEntry)
      requires Valid() && inHand == {entry}
      modifies this
      ensures Valid() && inHand == {} && added == old(added) && retired == old(retired)
      ensures if entry.Finished(config) then complete == old(complete) + [entry] && backlog == old(backlog)
              else backlog == old(backlog) + [entry] && complete == old(complete)
    {
      PlacedApart(added, backlog, complete, retired, inHand);
      assert entry in inHand;
      if entry.Finished(config) {
        complete := complete + [entry];
      } else {
        backlog := backlog + [entry];
      }
      inHand := {};
      PlacedTogether(added, backlog, complete, retired, inHand);
    }

    /** attempt_send on the entry in hand. */
    method AttemptSend(entry: SendLogEntry, dropboxes: seq<Server>, shuffled: seq<Server>,
                       posted: seq<Option<Route>>, stop: nat)
      requires Valid() && inHand == {entry} && entry.CanTry(dropboxes, shuffled, posted)
      modifies entry
      ensures Valid()
      ensures entry.routesSent == old(entry.routesSent) +
                Somes(posted[..Tries(stop, |posted|, config.redundancy - |old(entry.routesSent)|)])
      ensures forall k :: |old(entry.routesSent)| <= k < |entry.routesSent| ==>
                entry.routesSent[k].target in dropboxes && entry.routesSent[k].target !in Targets(old(entry.routesSent))
      ensures stop >= |posted| && (forall i :: 0 <= i < |posted| ==> posted[i].Some?) ==>
                |entry.routesSent| == Least(config.redundancy, |old(entry.routesSent)| + |posted|)
    {
      PlacedApart(added, backlog, complete, retired, inHand);
      assert entry in inHand;
      ghost var tries := Tries(stop, |posted|, config.redundancy - |entry.routesSent|);
      entry.Try(config, dropboxes, shuffled, posted, stop);
      if stop >= |posted| && forall i :: 0 <= i < |posted| ==> posted[i].Some? {
        AllFound(posted[..tries]);
      }
    }
  }

  lemma {:induction false} AllFound(posted: seq<Option<Route>>)
    requires forall i :: 0 <= i < |posted| ==> posted[i].Some?
    ensures |Somes(posted)| == |posted|
  {
    if posted != [] {
      AllFound(posted[..|posted| - 1]);
    }
  }

  /** Try by try, in order: each route that was posted is there, and nothing else. */
  lemma {:induction false} SomesOneByOne(a: seq<Option<Route>>, x: Option<Route>, b: seq<Option<Route>>)
    ensures Somes([]) == []
    ensures Somes(a + [x] + b) == Somes(a) + (if x.Some? then [x.value] else []) + Somes(b)
    decreases |b|
  {
    var all := a + [x] + b;
    if b == [] {
      assert all == a + [x] && all[..|all| - 1] == a;
    } else {
      var front := b[..|b| - 1];
      SomesOneByOne(a, x, front);
      assert all[..|all| - 1] == a + [x] + front && all[|all| - 1] == b[|b| - 1];
    }
  }

  /** The routes that were found, in order. */
  function Somes(posted: seq<Option<Route>>): (routes: seq<Route>)
    ensures |routes| <= |posted|
  {
    if posted == [] then [] else
      var front, last := Somes(posted[..|posted| - 1]), posted[|posted| - 1];
      if last.Some? then front + [last.value] else front
  }

  /** A target whose turn it is has not been sent to. */
  lemma NewTarget(before: seq<Route>, added: seq<Route>, shuffled: seq<Server>, i: nat)
    requires Distinct(shuffled) && i < |shuffled| && shuffled[i] !in Targets(before)
    requires forall r :: r in added ==> r.target in shuffled[..i]
    ensures shuffled[i] !in Targets(before + added)
  {
    forall k | 0 <= k < |before + added| ensures Targets(before + added)[k] != shuffled[i] {
      if k < |before| {
        assert Targets(before)[k] == (before + added)[k].target;
      } else {
        assert (before + added)[k] in added;
      }
    }
  }
}
