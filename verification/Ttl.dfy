/** validate_ttl in prism/server/routing/router_ls.py, on the two fields it looks at. Times are in
    microseconds, times to live in seconds. */
module Ttl {

  const MICROS := 1_000_000

  /** Messages stamped more than 30 seconds ahead of the receiver's clock are ignored. */
  predicate Punctual(timestamp: int, now: int) {
    timestamp <= now + 30 * MICROS
  }

  function ClampTtl(ttl: int, ttlMax: nat): (r: nat)
    ensures r <= ttlMax && (0 <= ttl <= ttlMax ==> r == ttl)
    ensures (ttl < 0 ==> r == 0) && (ttl > ttlMax ==> r == ttlMax)
  {
    if ttl < 0 then 0 else if ttl < ttlMax then ttl else ttlMax
  }
}
