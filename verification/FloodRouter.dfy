/** prism/server/routing/flood_db.py and the flood handlers of
    prism/server/routing/router_ls.py. Routers are named by their index. */
module FloodRouter {
  import opened Wrappers
  import opened Graphs
  import opened Ttl

  type FloodId = nat
  type Payload = nat

  /** ls_hops_max and ls_ttl_max. */
  datatype Config = Config(hopsMax: nat, ttlMax: nat)

  datatype FloodMsg = FloodMsg(id: FloodId, hop: int, sender: Node, timestamp: int, ttl: int, payload: Payload)

  /** A message queued for every neighbor that is not in sentTo. */
  datatype Envelope = Envelope(message: FloodMsg, sentTo: set<Node>)

  type HopRecords = map<FloodId, int>

  predicate Improves(db: HopRecords, id: FloodId, hop: int) {
    id !in db || hop < db[id]
  }

  function Recorded(db: HopRecords, id: FloodId, hop: int): HopRecords {
    if Improves(db, id, hop) then db[id := hop] else db
  }

  class FloodDB {
    var database: HopRecords

    constructor ()
      ensures database == map[]
    {
      database := map[];
    }

    method Update(id: FloodId, hop: int) returns (updated: bool)
      modifies this
      ensures updated == old(Improves(database, id, hop))
      ensures database == old(Recorded(database, id, hop))
    {
      if id !in database {
        database := database[id := hop];
        return true;
      }
      if hop < database[id] {
        database := database[id := hop];
        return true;
      }
      return false;
    }
  }

  /** validate_ttl on a flood message. */
  function ValidateTtl(msg: FloodMsg, now: int, config: Config): Option<FloodMsg> {
    if Punctual(msg.timestamp, now) then Some(msg.(ttl := ClampTtl(msg.ttl, config.ttlMax))) else None
  }

  /** A message is refused exactly if its stamp is more than 30 seconds ahead. One that a router
      validated has a time to live in range, the nearest to the one it came with, and nothing else
      changed; it passes every other router of no lower limit and no earlier clock as it is, relayed
      or not. */
  lemma ValidatedStays(msg: FloodMsg, now: int, config: Config, hop: int, sender: Node, later: int, other: Config)
    requires now <= later && config.ttlMax <= other.ttlMax
    ensures ValidateTtl(msg, now, config).None? <==> msg.timestamp > now + 30_000_000
    ensures ValidateTtl(msg, now, config).Some? ==>
              var valid := ValidateTtl(msg, now, config).value;
              var relayed := valid.(hop := hop, sender := sender);
              && 0 <= valid.ttl <= config.ttlMax && valid == msg.(ttl := valid.ttl)
              && (forall t :: 0 <= t <= config.ttlMax ==> Apart(valid.ttl, msg.ttl) <= Apart(t, msg.ttl))
              && ValidateTtl(relayed, later, other) == Some(relayed)
  {
  }

  function Apart(a: int, b: int): nat {
    if a < b then b - a else a - b
  }

  /** What starts a flood: hop count 0, and nobody excluded. */
  function Announcement(id: FloodId, origin: Node, now: int, ttl: int, payload: Payload): Envelope {
    Envelope(FloodMsg(id, 0, origin, now, ttl, payload), {})
  }

  /** What receiving a flood message does: the new records, the local delivery, the envelope. */
  datatype Reaction = Reaction(db: HopRecords, local: Option<Payload>, envelope: Option<Envelope>)

  function React(db: HopRecords, msg: FloodMsg, now: int, config: Config): Reaction {
    var valid := ValidateTtl(msg, now, config);
    if valid.None? || !Improves(db, msg.id, msg.hop) then Reaction(db, None, None)
    else
      var forward := valid.value.(hop := msg.hop + 1);
      Reaction(db[msg.id := msg.hop], Some(msg.payload),
               if msg.hop > config.hopsMax then None else Some(Envelope(forward, {msg.sender})))
  }

  class LinkStateRouter {
    const pseudonym: Node
    const config: Config
    const floodDb: FloodDB
    var neighbors: set<Node>

    constructor (pseudonym: Node, config: Config, neighbors: set<Node>)
      ensures this.pseudonym == pseudonym && this.config == config && this.neighbors == neighbors
      ensures fresh(floodDb) && floodDb.database == map[]
    {
      this.pseudonym := pseudonym;
      this.config := config;
      this.neighbors := neighbors;
      this.floodDb := new FloodDB();
    }

    /** Starts a flood with a fresh nonce: everybody is a target and no record is made. */
    method Flood(nonce: FloodId, payload: Payload, now: int, ttl: int)
      returns (local: Payload, envelope: Envelope)
      ensures local == payload
      ensures envelope == Announcement(nonce, pseudonym, now, ttl, payload)
    {
      local := payload;
      envelope := Envelope(FloodMsg(nonce, 0, pseudonym, now, ttl, payload), {});
    }

    method HandleFlood(msg: FloodMsg, now: int) returns (local: Option<Payload>, envelope: Option<Envelope>)
      modifies floodDb
      ensures Reaction(floodDb.database, local, envelope) == old(React(floodDb.database, msg, now, config))
    {
      var valid := ValidateTtl(msg, now, config);
      if valid.None? {
        return None, None;
      }
      var updated := floodDb.Update(valid.value.id, valid.value.hop);
      if !updated {
        return None, None;
      }
      local := Some(valid.value.payload);
      if valid.value.hop > config.hopsMax {
        return local, None;
      }
      var forward := valid.value.(hop := valid.value.hop + 1);
      return local, Some(Envelope(forward, {valid.value.sender}));
    }

    /** The neighbors an envelope goes to, and the message with this router as its sender. */
    method FloodTargets(envelope: Envelope) returns (targets: set<Node>, msg: FloodMsg)
      ensures targets == neighbors - envelope.sentTo && msg == envelope.message.(sender := pseudonym)
    {
      targets := neighbors - envelope.sentTo;
      msg := envelope.message.(sender := pseudonym);
    }
  }
}
