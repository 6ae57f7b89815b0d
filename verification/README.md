# Verified models of PRISM's core algorithms

A Dafny project that models the parts of PRISM whose correctness rests on an argument rather than
on inspection, and proves it:

* **Number theory and secret sharing** (`Modular`, `Primes`, `Polynomials`, `ModMath`, `Shamir`,
  `Octets`, `SecretSharing`, `Feldman`, `Vrf`): Tonelli-Shanks square roots, extended Euclid,
  Miller-Rabin, Shamir and Feldman secret sharing down to bytes, and the RSA full-domain-hash
  verifiable random function. All rest on one base: congruences, Fermat's little theorem, and
  "a polynomial has no more roots modulo a prime than its degree".
* **Link-state routing** (`Ttl`, `FloodRouter`, `Flooding`, `FloodRefinement`, `Graphs`, `LinkState`,
  `Synchronization`): the flooding protocol as a state machine over any network and any number of
  concurrent floods, with messages reordered and duplicated at will, and router objects that refine
  it; the link-state database; hop by hop forwarding. `Synchronization` joins the two: once the floods
  have died out, routers in reach of the originators hold the same database.
* **Clients and EMIXes** (`Onion`, `SendLog`, `Codec`): the onion and its peeling, the queue of
  messages to be sent with redundancy, and the conversion between messages and CBOR dictionaries.
* **Identity-based encryption** (`Ibe`): the C library `bfibe` from shards and keys to the byte
  layout, over an abstract bilinear pairing.
* **The clustered topology** (`Clustered`): rings of EMIXes joined by one link per pair of rings.

Code that updates variables or fields in place is modelled by methods and classes, each proved
against a function or a declarative specification; what the source promises is then proved about
that specification. Random draws, clocks, network delivery, hash functions and the outcome of posting
a message are inputs. `None` results stand for the exceptions named beside them.

`dafny verify dfyconfig.toml` checks everything.

## Where the code differs from what one might expect

* `modsqrt` (documented for odd primes) returns 0 for p = 2. For odd primes it is exact:
  a root if and only if there is a nonzero one (`ModMath.ModSqrt`).
* `VRF_prove` raises unless the modulus has a bit length divisible by 8 and fewer than 2^32 octets
  (`Vrf.ProveSucceeds`): `i2bytes(n, ksize)` needs `ksize` whole octets. With any other modulus
  `VRF_verify` accepts nothing: it raises if the recovered number fits ksize - 1 octets, or if ksize is
  0, and returns False otherwise (`Vrf.VerifyOutcome`; `Vrf.NineBits` shows both for n = 323). With the
  moduli that can be written it never raises. A proof is accepted whatever its length and even when its
  number is not below n; only the residue counts (`Vrf.AcceptedExactly`, which is why `Vrf.UniqueProof`
  speaks of numbers below n). `mod_exp` returns its base unreduced for power 1 (`Vrf.ModExpCong`).
* Feldman verification accepts everything when the base g is 1 modulo p, which
  `get_commitment_parameters` can draw (b = 1 or b = p - 1); in every other case it accepts exactly the
  shares on the committed polynomial (`Feldman.AcceptsExactly`).
* The Lagrange path of `FeldmansVSS.reconstruct` ignores where the shares were held when the query
  is not 0, and assumes points 1, 2, ... without iq. It is right for every polynomial exactly if those
  points have the same Lagrange coefficients at iq as the true ones (`Feldman.LagrangeExactly`); that
  holds for the assumed parties (`Feldman.LagrangeReconstructs`), fails for some others
  (`Feldman.OtherPartiesMislead`) and can hold for others by coincidence (`Feldman.OtherPartiesAgree`).
  Queries other than 0, ..., number of shares + 1 end with an IndexError (`Feldman.PointsFor`).
* Shamir reconstruction does not notice the same point given twice: k copies of a share reconstruct k
  times its value (`Shamir.CopiesAdd`). It fails exactly when two different points coincide modulo the
  modulus (`Shamir.ReconstructFails`).
* From 256 bytes per chunk on, the CBOR header takes three bytes while `chunk_size_bytes` reserves two.
  Sharing then works for all data only if the chunk of 0xff bytes stays below the modulus, which is
  a bound on the modulus (`SecretSharing.SharingSucceeds`); for 256-byte chunks and the modulus 256^258,
  for instance, no full chunk can be encoded (`SecretSharing.HeaderTooLong`). From 65536 bytes per chunk
  on it never works for all data.
* With a modulus of 17 to 24 bits chunks have size 0 and `encode_bytes` raises; below that the size is
  negative, nothing is shared and the data is lost (`SecretSharing.TooSmallModulus`).
* `find_start` offers servers that have addresses, not live ones. Before any route was used a start
  without a live channel leaves `random.choice` an empty list; later that happens exactly if no server
  has an unused live channel and the start has none of the used ones, which need not be live
  (`Onion.StartHasChannel`, `Onion.DeadStartOffered`, `Onion.DeadChannelOffered`).
* `hash_to_bytes` copies the last block of its stream to the front of the buffer, so with more than one
  block the tail keeps what was there before (`Ibe.HashBytesTail`). Both sides start from zeroed
  buffers, so decryption still inverts encryption (`Ibe.EndToEnd`).
* Databases converge only if an originator never uses a timestamp twice: of two LSPs with one stamp the
  first to come stays (`LinkState.TiesDiverge`).
* A router that is not in its own graph keeps its routing table unchanged
  (`LinkState.LinkStateNetwork.UpdateRoutingTable`).
* Originators make no hop record for their own flood; one comes back to them over a cycle and is
  recorded and delivered then. The breadth-first result therefore excludes the originator
  (`Flooding.FloodIsBreadthFirst`).

## Model

| member | source | states |
|---|---|---|
| Primes.Fermat | prism/common/crypto/modmath.py:140-166 | Fermat's little theorem, on which Miller-Rabin, Euler's criterion, Feldman's exponents and RSA rest |
| Polynomials.RootBound | prism/common/crypto/secretsharing/shamir.py:44-60 | a polynomial with at least as many distinct roots modulo a prime as coefficients vanishes everywhere |
| ModMath.EulerCriterion | prism/common/crypto/modmath.py:22-32 | for every odd prime, legendre_symbol is 1 exactly on the nonzero squares, 0 on the multiples and -1 elsewhere |
| ModMath.ModSqrt | prism/common/crypto/modmath.py:35-105 | terminates for every prime; for odd p the result squares to a whenever a is a nonzero square, and is 0 otherwise |
| ModMath.NonResidueExists | prism/common/crypto/modmath.py:69-73 | the search for a non-residue ends below p |
| ModMath.PartitionTwos | prism/common/crypto/modmath.py:61-67 | p - 1 is split into an odd number times a power of two |
| ModMath.LeastOrder | prism/common/crypto/modmath.py:93-98 | the inner loop finds the least m with b^(2^m) = 1, and m is below r |
| ModMath.TonelliInit | prism/common/crypto/modmath.py:88-91 | the loop starts with x^2 = a b, g^(2^(r-1)) = -1 and b^(2^(r-1)) = 1 |
| ModMath.TonelliStep | prism/common/crypto/modmath.py:101-105 | one iteration keeps that invariant with r lowered to m |
| ModMath.TonelliLoop | prism/common/crypto/modmath.py:92-105 | from any state with the invariant the loop ends with a root of a |
| ModMath.Xgcd | prism/common/crypto/modmath.py:117-125 | for all integers, negative ones included, the result is a combination of the inputs that divides both |
| ModMath.ModInv | prism/common/crypto/modmath.py:128-133 | returns the inverse in [0, m) whenever one exists and raises exactly when none exists |
| ModMath.StrongTestIsExact | prism/common/crypto/modmath.py:154-165 | an odd number above 3 is prime if and only if it passes the strong test for every base that can be drawn |
| ModMath.PrimesPass | prism/common/crypto/modmath.py:154-165 | a prime passes the strong test for every base it does not divide |
| ModMath.SharedFactorFails | prism/common/crypto/modmath.py:154-165 | a base with a factor in common with n never passes |
| ModMath.StrongTestMeans | prism/common/crypto/modmath.py:147-165 | for n - 1 = r 2^s with r odd a base passes if and only if a^(n-1) = 1 and repeated squaring of a^r reaches 1 from nothing but 1 and n - 1; equivalently a^r = 1 or some a^(r 2^j) = n - 1 with j < s |
| ModMath.PseudoprimeRejected | prism/common/crypto/modmath.py:154-165 | 341 = 11 * 31 is rejected with base 2, although 2^340 = 1 |
| ModMath.IsPrime | prism/common/crypto/modmath.py:140-166 | True exactly for 2, 3 and the odd numbers that pass the strong test for each drawn base |
| ModMath.AcceptedPrimes | prism/common/crypto/modmath.py:140-166 | no prime is ever rejected, whatever bases are drawn; a number accepted with all bases is prime |
| ModMath.CommitmentGenerator | prism/common/crypto/modmath.py:185-192 | a square modulo p = 2q + 1 has q-th power 1 |
| Shamir.P | prism/common/crypto/secretsharing/shamir.py:29-33 | the loop evaluates the polynomial modulo m |
| Shamir.ShareValue | prism/common/crypto/secretsharing/shamir.py:35-42 | party i holds the value at i + 1 of the polynomial with the secret as constant term |
| Shamir.RecoverCoefficients | prism/common/crypto/secretsharing/shamir.py:44-52 | the loops compute the Lagrange coefficients over declarative inverses, or fail on a missing one |
| Shamir.CoefficientRatio | prism/common/crypto/secretsharing/shamir.py:44-52 | a coefficient times the product of the differences of the points is the product of the differences to the query |
| Shamir.Reconstruct | prism/common/crypto/secretsharing/shamir.py:54-60 | the weighted sum of the shares with these coefficients |
| Shamir.ReconstructFails | prism/common/crypto/secretsharing/shamir.py:44-60 | reconstruction raises if and only if two different points coincide modulo the prime |
| Shamir.Interpolation | prism/common/crypto/secretsharing/shamir.py:44-60 | enough values of one polynomial at points that differ modulo the prime give its value at every query |
| Shamir.ShareReconstruct | prism/common/crypto/secretsharing/shamir.py:35-60 | any threshold many shares of distinct parties reconstruct the sharing polynomial anywhere, and the secret at 0, for every choice of coefficients |
| Shamir.ReshareReconstructs | prism/common/crypto/secretsharing/shamir.py:35-60 | a share that is shared again comes back from threshold many of its shares |
| Shamir.RootCoefficients | prism/common/crypto/secretsharing/shamir.py:62-68 | the coefficients built by inserting at the front are those of a random polynomial times X - iq, reduced |
| Shamir.RootPolynomialAt | prism/common/crypto/secretsharing/shamir.py:62-68 | coefficient k of that product is the difference of the two draws the loop combines |
| Polynomials.EvalReduced | prism/common/crypto/secretsharing/shamir.py:62-68 | reducing the coefficients does not change values modulo m |
| Shamir.RandomPolynomialRootAt | prism/common/crypto/secretsharing/shamir.py:62-68 | the shares dealt are those of that product |
| Shamir.RootPolynomialMasks | prism/common/crypto/secretsharing/shamir.py:54-68 | the product has threshold many coefficients and vanishes at iq; adding its shares does not change what enough parties reconstruct at iq |
| Octets.NonzeroLeadRoundTrip | prism/common/vrf/octets.py:28-35 | a byte string with a nonzero leading byte survives the conversion to a number and back at the number's own length |
| SecretSharing.CborRoundTrip | prism/common/crypto/secretsharing/secretsharing.py:78-85 | loading a dumped CBOR byte string (section 3.1 of RFC 8949) gives it back, for every length of the length field |
| SecretSharing.HeadersAre | prism/common/crypto/secretsharing/secretsharing.py:78-81 | the header bytes for every length, and the standard's example of a byte string |
| SecretSharing.ChunkFits | prism/common/crypto/secretsharing/secretsharing.py:71-81 | a chunk of the computed size, at most 255 bytes, encodes below the modulus |
| SecretSharing.ChunkRoundTrip | prism/common/crypto/secretsharing/secretsharing.py:78-85 | an encoded chunk decodes to itself |
| SecretSharing.ChunksRoundTrip | prism/common/crypto/secretsharing/secretsharing.py:87-91 | splitting into chunks, encoding, decoding and joining is the identity |
| SecretSharing.ChunksAre | prism/common/crypto/secretsharing/secretsharing.py:87-88 | the number of chunks is the length divided by the chunk size, rounded up, and chunk j encodes the bytes from j times the size on |
| SecretSharing.Zip | prism/common/crypto/secretsharing/secretsharing.py:93-104 | transposes rows and columns, cut to the shortest row |
| SecretSharing.RowsAreParties | prism/common/crypto/secretsharing/secretsharing.py:93-98 | row i holds party i's share of every chunk, in order |
| SecretSharing.BytesRoundTrip | prism/common/crypto/secretsharing/secretsharing.py:93-104 | every nonempty byte string that was shared is reconstructed from the rows of any threshold many parties |
| SecretSharing.SharingSucceeds | prism/common/crypto/secretsharing/secretsharing.py:71-98 | sharing succeeds for all byte strings if and only if chunks have at most 255 bytes, or at most 65535 and the chunk of 0xff bytes encodes below the modulus |
| SecretSharing.LongChunk | prism/common/crypto/secretsharing/secretsharing.py:78-81 | a chunk of 256 to 65535 bytes encodes exactly if header and data, read as a number, are below the modulus |
| SecretSharing.FullChunkOfOnes | prism/common/crypto/secretsharing/secretsharing.py:71-81 | that condition is whether the full chunk of 0xff bytes encodes |
| SecretSharing.HeaderTooLong | prism/common/crypto/secretsharing/secretsharing.py:71-81 | for every chunk size from 256 to 65535 a modulus with which no full chunk encodes |
| SecretSharing.TooSmallModulus | prism/common/crypto/secretsharing/secretsharing.py:71-98 | a modulus has no room for a byte per chunk exactly up to 24 bits; from 17 bits on sharing then raises even for no data, and up to 16 bits nothing is shared and nothing comes back |
| Feldman.VerifyD | prism/common/crypto/secretsharing/feldmans.py:43-47 | compares the product of commitment powers at the share's point with the commitment to its value, or raises exactly for a negative value and a base without inverse |
| Feldman.CommitModQ | prism/common/crypto/secretsharing/feldmans.py:34-35 | the commitment to any integer, negative ones included, is g to its residue modulo q |
| Feldman.ReferenceIsPower | prism/common/crypto/secretsharing/feldmans.py:43-47 | the product of powers of honest commitments is g to the value of the polynomial |
| Feldman.EqualPowers | prism/common/crypto/secretsharing/feldmans.py:34-47 | powers of g agree modulo p if and only if their exponents agree modulo q, or g is 1 |
| Feldman.AcceptsExactly | prism/common/crypto/secretsharing/feldmans.py:37-47 | with the commitments of a polynomial exactly the shares on it modulo q are accepted, unless g is 1 modulo p |
| Feldman.DealtSharesAccepted | prism/common/crypto/secretsharing/feldmans.py:34-66 | every share made by share passes the check, although shares are reduced modulo q and checked in exponents modulo p |
| Feldman.ShareValue | prism/common/crypto/secretsharing/feldmans.py:55-66 | shares of any integer, with commitments where required; resharing keeps the original commitment |
| Feldman.RandomPolynomialRootAt | prism/common/crypto/secretsharing/feldmans.py:139-145 | deals shares and commitments of a random polynomial times X - iq, reduced modulo q |
| Feldman.PointsFor | prism/common/crypto/secretsharing/feldmans.py:68-83 | the points the loop assumes are the shares' own at 0 and otherwise 1, 2, ... without iq; IndexError exactly for other queries |
| Feldman.ReconstructLagrange | prism/common/crypto/secretsharing/feldmans.py:68-102 | interpolates the values at the assumed points, in mode 1 |
| Feldman.LagrangeExactly | prism/common/crypto/secretsharing/feldmans.py:68-102 | for any distinct holders and any query: what they reconstruct is right for every polynomial with no more coefficients than shares, if and only if the query is allowed and the assumed points have the Lagrange coefficients of the holders' points |
| Feldman.LagrangeReconstructs | prism/common/crypto/secretsharing/feldmans.py:68-102 | in particular any threshold many shares give the secret at 0, and the holders of the assumed points the polynomial's value elsewhere |
| Shamir.OnlyLagrangeWeights | prism/common/crypto/secretsharing/shamir.py:44-60 | reduced weights give every polynomial's value at the query if and only if they are the Lagrange coefficients |
| Shamir.CopiesAdd | prism/common/crypto/secretsharing/shamir.py:54-60 | k copies of one share reconstruct k times its value |
| Feldman.OtherPartiesMislead | prism/common/crypto/secretsharing/feldmans.py:68-102 | modulo 7 the dealt shares of X held at points 1 and 4 reconstruct 6 at 2 instead of 2 |
| Feldman.OtherPartiesAgree | prism/common/crypto/secretsharing/feldmans.py:68-102 | modulo 7 the holders of points 5 and 4 are always right at 3, although points 1 and 2 are assumed |
| Feldman.RecoverDoubleShareCoefficients | prism/common/crypto/secretsharing/feldmans.py:120-128 | with numerators and differences turned round the coefficients are those of Lagrange at 0 |
| Feldman.DoubleSharesExactly | prism/common/crypto/secretsharing/feldmans.py:131-137 | shares of all shares combine to the original commitment if and only if their constant terms interpolate to the secret, unless g is 1 |
| Vrf.ModExpLoop | prism/common/vrf/vrf.py:101-119 | square and multiply computes the power for every non-negative exponent |
| Vrf.ModExpCong | prism/common/vrf/vrf.py:101-119 | its result is congruent to the power, and reduced except for power 1, where it is the base as it came, and power 0, where it is 1 |
| Vrf.Mgf1 | prism/common/vrf/vrf.py:87-94 | the loop yields the mask, or raises exactly for masks that are too long |
| Vrf.MaskBytes | prism/common/vrf/vrf.py:87-94 | byte i of a mask of any length is byte i mod 32 of the hash of the seed with block number i div 32 |
| Vrf.EncodingBytes | prism/common/vrf/vrf.py:212-217 | byte i of the encoding is byte i mod 32 of the hash of 1, the number of octets, the modulus, the input and the block number i div 32 |
| Vrf.RsaInverse | prism/common/vrf/vrf.py:122-143 | for n = pq and e d = 1 modulo p - 1 and q - 1, raising to d and to e is the identity modulo n, multiples of p and q included |
| Vrf.RsaInjective | prism/common/vrf/vrf.py:136-143 | raising to e is injective modulo n |
| Vrf.ProveSucceeds | prism/common/vrf/vrf.py:201-220 | proving succeeds if and only if the modulus has whole octets, fewer than 2^32; the proof then encodes the signature of the encoded input |
| Vrf.AcceptedExactly | prism/common/vrf/vrf.py:223-250 | a byte string is accepted, with its own hash, exactly if its number is the prover's modulo n |
| Vrf.Completeness | prism/common/vrf/vrf.py:194-250 | what the prover makes is accepted and yields the prover's hash (section 4 of draft-irtf-cfrg-vrf-03) |
| Vrf.UniqueProof | prism/common/vrf/vrf.py:223-250 | two accepted proofs of one length with numbers below n are equal |
| Vrf.ProofsTellApart | prism/common/vrf/vrf.py:201-250 | two inputs have the same proof if and only if they have the same encoding, and a proof of one is accepted for the other in that case only |
| Vrf.DifferentInputs | prism/common/vrf/vrf.py:201-250 | for moduli of at least 33 octets, different inputs have different proofs, and a proof of one is rejected for the other, unless the hash collides on two different octet strings that are named |
| Vrf.AcceptedHash | prism/common/vrf/vrf.py:194-198 | the hash that comes with an acceptance is that of the octet 2 and the proof |
| Vrf.VerifyOutcome | prism/common/vrf/vrf.py:223-250 | for every modulus and every byte string: with a modulus that cannot be written nothing is accepted, and the call raises or rejects by a stated bound on the recovered number; with the others it never raises |
| Vrf.NineBits | prism/common/vrf/vrf.py:241-246 | a key with a nine-bit modulus for which verification rejects one byte string and raises on another |
| FloodRouter.FloodDB.Update | prism/server/routing/flood_db.py:23-32 | true exactly if the hop count is new or lower, and then that is what is recorded |
| FloodRouter.ValidatedStays | prism/server/routing/router_ls.py:864-872 | a message is refused exactly if its stamp is more than 30 seconds ahead; a validated one has the nearest time to live in range and nothing else changed, and passes every later router as it is |
| FloodRefinement.Originate | prism/server/routing/router_ls.py:174-197 | flood on a router object, followed by sending, is the state machine's originating step, with the one local delivery it logs |
| FloodRouter.LinkStateRouter.HandleFlood | prism/server/routing/router_ls.py:260-282 | on an improvement delivers locally and, up to the hop limit, sends on with one hop more to all but the sender |
| Flooding.NeverSentBack | prism/server/routing/router_ls.py:260-282 | no receipt sends anything back to the neighbor the message came from; on an improvement within the hop limit all other neighbors get the payload with one hop more, otherwise nobody gets anything |
| Flooding.EverybodyIsTold | prism/server/routing/router_ls.py:174-197 | the start of a flood tells every neighbor, with hop count 0 and the originator's stamp |
| FloodRefinement.Send | prism/server/routing/router_ls.py:333-360 | what a router puts in flight is one or more copies for each neighbor that is not excluded, and nothing else |
| FloodRefinement.Receive | prism/server/routing/router_ls.py:260-282 | handle_flood on a router object, followed by sending, is the state machine's receiving step, so that its theorems hold of networks of router objects |
| FloodRefinement.Start | prism/server/routing/flood_db.py:17-21 | fresh router objects mirror an initial state of the state machine |
| Flooding.NextSound | prism/server/routing/router_ls.py:260-282 | every step keeps: hop counts of messages and records stem from walks of that length, within the hop limit, and deliveries are bounded by the record |
| Flooding.NextComplete | prism/server/routing/router_ls.py:260-282 | every step keeps: each neighbor of a router with a record has, or will get by a message in flight, one at most one worse, or is nearer to the originator |
| Flooding.RunInvariant | prism/server/routing/router_ls.py:174-282 | both hold in every state of every run |
| Flooding.FloodIsBreadthFirst | prism/server/routing/router_ls.py:174-282 | in every run, under every reordering and duplication, once nothing of a flood is in flight each other router at distance d has record d - 1 if d <= ls_hops_max + 2 and none otherwise |
| Flooding.AlwaysSafe | prism/server/routing/router_ls.py:260-282 | at any time no record is below the distance minus one, and no router delivers a flood more than ls_hops_max + 2 times on receipt |
| Flooding.MeasureDrops | prism/server/routing/router_ls.py:260-282 | each receipt lowers, lexicographically, the improvements still possible and the messages in flight of its flood; other steps leave them alone |
| Flooding.EveryFloodTerminates | prism/server/routing/router_ls.py:174-282 | in every infinite run each flood is received only finitely often |
| LinkState.LinkStateNetwork.Update | prism/server/routing/network.py:46-53 | only a strictly newer LSP replaces an entry; true exactly if the database changed; then the table is rebuilt |
| LinkState.LinkStateNetwork.UpdateRoutingTable | prism/server/routing/network.py:55-84 | the table holds the first hops of shortest paths over unexpired LSPs; if the router is not in the graph it stays as it was, for the graph it was built for |
| LinkState.EdgeLifetime | prism/server/routing/network.py:58-63 | an edge is in the graph if and only if its LSP is in the database, names the neighbor, and its time to live has not passed |
| LinkState.LspLifetime | prism/server/routing/network.py:58-63 | an LSP contributes all its neighbors from its stamp up to the last microsecond of its time to live, and none from then on |
| LinkState.EdgesShrink | prism/server/routing/network.py:58-63 | time alone only takes edges away |
| LinkState.PurgedExactly | prism/server/routing/network.py:86-95 | an entry is purged exactly when its time to live has passed, and purging takes no edge from the graph |
| LinkState.AcceptedMembers | prism/server/routing/router_ls.py:284-289 | accepted are exactly the LSPs stamped at most 30 seconds ahead, with their time to live brought into range |
| LinkState.LinkStateNetwork.RemoveExpired | prism/server/routing/network.py:86-95 | exactly the expired entries go, and the table is rebuilt only if there were some |
| LinkState.LinkStateNetwork.HandleLsp | prism/server/routing/router_ls.py:284-289 | the database takes an LSP, with clamped time to live, unless it is from the future |
| LinkState.LinkStateNetwork.Hop | prism/server/routing/network.py:97-101 | a hop is one the journey theorems allow for the graph the table was built for, along an edge of it unless the destination is an online neighbor, and there is none exactly if the destination is not online and cannot be reached or is the router itself |
| LinkState.MergeAllIsNewest | prism/server/routing/network.py:46-53 | after any sequence of LSPs each entry is an offered LSP with the greatest timestamp of its originator, and every originator has one |
| LinkState.Convergence | prism/server/routing/network.py:46-53 | order and duplicates do not matter: routers that accepted the same LSPs, with distinct timestamps per originator, have equal databases |
| LinkState.TiesDiverge | prism/server/routing/network.py:46-53 | of two LSPs with one stamp the first to come stays, so routers that get them in different orders disagree |
| LinkState.StampsNeverGoBack | prism/server/routing/network.py:46-53 | without expiry stored timestamps never decrease and entries never vanish |
| LinkState.DatabaseResponse | prism/server/routing/router_ls.py:692-708 | after a neighbor's whole database, in any order, each entry is the newer of the two |
| LinkState.DeliveriesConcatenate | prism/server/routing/router_ls.py:703-708 | handling LSPs in parts is handling them in one sequence |
| LinkState.HopIsNearer | prism/server/routing/network.py:55-101 | every permitted hop reaches the destination or a router exactly one nearer |
| LinkState.JourneyIsShort | prism/server/routing/router_ls.py:370-396 | a packet makes at most as many hops as its source is away and visits no router twice, whatever ties and shortcuts each router takes |
| LinkState.NeverStuck | prism/server/routing/router_ls.py:231-242 | until it arrives, every table for the graph has a next hop for the packet, and taking it continues the journey |
| Synchronization.RunFaithful | prism/server/routing/router_ls.py:174-282 | in every run messages and deliveries carry the payload of the flood they belong to, and a router has a record only of what it delivered |
| Synchronization.DeliveredExactly | prism/server/routing/router_ls.py:174-282 | after all floods have died out a router in reach of the originators has delivered exactly the flooded payloads |
| Synchronization.DatabasesSynchronize | prism/server/routing/router_ls.py:260-289 | then any two such routers, each fed by its own deliveries in its own order and number, hold equal link-state databases |
| Clustered.NodeUsage.AddLink | prism/config/topology/clustered.py:44-55 | adds a link once per pair, refuses self links, and keeps the counters equal to the degrees |
| Clustered.NodeUsage.FirstMinimal | prism/config/topology/clustered.py:63-65 | the first node of least degree among the given ones, failing exactly for none |
| Clustered.ClustersNearSquare | prism/config/topology/clustered.py:68-70 | neither the number nor the size of the clusters exceeds the root of the number of EMIXes rounded up, and with one cluster less there would not be room |
| Clustered.ClusterEmixes | prism/config/topology/clustered.py:73-89 | the clusters are consecutive pieces that make up the EMIXes, the first n mod count of them one larger |
| Clustered.SkipIsThird | prism/config/topology/clustered.py:104 | three shortcuts go round the ring, and would not if each were one shorter |
| Clustered.ClusterInternalSkipRing | prism/config/topology/clustered.py:99-116 | the links are exactly the ring and the shortcuts a third ahead, each once; no node has more than four |
| Clustered.FanOut | prism/config/topology/clustered.py:99-116 | any duplicate-free links of that shape put at most four on a node |
| Clustered.AddedStaysBalanced | prism/config/topology/clustered.py:119-135 | a link between least used nodes keeps the loads within each cluster within one of each other |
| Clustered.InterClusterLinks | prism/config/topology/clustered.py:119-135 | one link for each pair of clusters in order, and loads within each cluster that differ by at most one |
| Clustered.ExactlyOneLink | prism/config/topology/clustered.py:119-135 | each pair of clusters is joined by exactly one of the links |
| Clustered.AllConnected | prism/config/topology/clustered.py:99-135 | rings and bridges connect all nodes |
| Clustered.ClusteredEmixes | prism/config/topology/clustered.py:138-162 | for every nonempty set of EMIXes: a partition with sizes within one of each other, balanced bridges, and a connected graph |
| SendLog.SendLogEntry.InvalidateRoutes | prism/client/send_log.py:60-61 | exactly the routes with an unreachable server go, in order |
| SendLog.AliveRoutes | prism/client/send_log.py:60-61 | what is left are the routes all of whose servers can be reached, still to different dropboxes |
| SendLog.AliveOneByOne | prism/client/send_log.py:60-61 | a route stays, in its place, exactly if its target and all its hops can be reached |
| SendLog.SafeMeans | prism/client/send_log.py:64-70 | safe is to be sent as often as asked for, with every send longer ago than messages are retained |
| SendLog.SendLogEntry.Candidates | prism/client/send_log.py:54-55 | the dropboxes that no route goes to yet |
| SendLog.SendLogEntry.Try | prism/client/client.py:506-540 | of the first targets, as many as are asked for and come before an exception, exactly the posted routes are added, to new dropboxes only, and never beyond the redundancy |
| SendLog.SomesOneByOne | prism/client/client.py:518-537 | each target tried adds its route exactly if the route was found and posted, in order |
| SendLog.SendLog.Add | prism/client/send_log.py:80-81 | a new entry joins the end of the queue and everything else stays |
| SendLog.SendLog.CleanupComplete | prism/client/send_log.py:101-108 | unfinished entries return to the end of the queue and finished ones that are not safe stay, both in order, the finished and safe ones are retired, and nothing is lost or doubled |
| SendLog.SendLog.BeginAttempt | prism/client/send_log.py:83-94 | hands out the first entry of the queue as the cleanup leaves it, with its dead routes removed, or nothing exactly if that queue is empty; only finished and safe entries are retired |
| SendLog.SendLog.EndAttempt | prism/client/send_log.py:96-99 | a finished entry is filed as complete, an unfinished one returns to the queue |
| SendLog.SendLog.AttemptSend | prism/client/client.py:506-540 | the same on the entry in hand, keeping the log's invariant; if every try works the entry has as many routes as asked for or as there are dropboxes |
| SendLog.PlacedApart | prism/client/send_log.py:73-108 | the invariant of every operation says that each added message is in exactly one of queue, hand, complete and retired, once |
| Ibe.SumPublicSucceeds | bfibe/src/api.c:153-169 | public parameters can be summed if and only if they are all of one level and one order; otherwise NULL |
| Ibe.ShardsAddUp | bfibe/src/api.c:153-188 | the shards of one base system can be summed, and summed public parameters and summed private keys are those of the sum of the secrets |
| Ibe.ExponentsQualify | bfibe/src/bfibe.c:44-110 | what is asked of a system is met for every order, every hash and every encoding width that holds the order, by a pairing that is not constant |
| Ibe.SharedElement | bfibe/src/bfibe.c:78-110 | sender and receiver compute the same pairing value for any number of shards |
| Ibe.HashToRangeLoop | bfibe/src/hash.c:27-55 | the loop is two rounds of hashing and accumulation modulo q |
| Ibe.HashToRangeIs | bfibe/src/hash.c:27-55 | two chained hashes, read as one number, modulo q (section 4.1.1 of RFC 5091) |
| Ibe.HashToBytes | bfibe/src/hash.c:61-97 | the loop fills the buffer block by block, the last block at the front |
| Ibe.FillShape | bfibe/src/hash.c:61-97 | which byte of which block ends up where, for every length |
| Ibe.HashBytesTail | bfibe/src/hash.c:61-97 | up to one block the buffer is the key stream; beyond that the tail keeps its old contents |
| Ibe.BlocksAre | bfibe/src/hash.c:70-85 | the blocks hash a chain of hashes that starts from zeros, each followed by the hashed seed |
| Ibe.Encrypt | bfibe/src/bfibe.c:112-174 | the XOR loops over the C buffers compute U, V and W |
| Ibe.XorByBits | bfibe/src/bfibe.c:160 | a bit of a combined byte is 1 exactly where the two bytes differ |
| Ibe.CiphertextParts | bfibe/src/bfibe.c:112-174 | U, and every bit of V and W, in terms of the draw, the message, the mask of theta and the key stream; a byte shows exactly where its mask is 0 |
| Ibe.Decrypt | bfibe/src/bfibe.c:176-238 | the in-place decryption and the verdict of the check, with the output cleared when it fails |
| Ibe.DecryptInverts | bfibe/src/bfibe.c:112-238 | with a key that pairs to the same element decryption gives the message back and the check U = [l]P passes |
| Ibe.CheckIsExact | bfibe/src/bfibe.c:176-238 | with the matching key the check passes for exactly the ciphertexts that encryption can produce, and then the output is their message; otherwise the output is zeros |
| Ibe.OnlyTheMask | bfibe/src/bfibe.c:183-201 | a key recovers the draw if and only if it gives the mask the draw was combined with |
| Ibe.MessageToBytes | bfibe/src/export.c:157-181 | the copies at an advancing position write the fields behind one another |
| Ibe.SerializedLayout | bfibe/src/export.c:157-181 | the length in bytes 0 to 7, least byte first, the level in byte 8, then U, V and W |
| Ibe.MessageFromBytes | bfibe/src/export.c:183-209 | the copies at an advancing position read them back, or the parser reports the wrong security level |
| Ibe.SerializedRoundTrip | bfibe/src/export.c:157-209 | parsing a serialized message gives it back, for every length below 2^64 and every point that survives its own encoding |
| Ibe.EncryptIbe | bfibe/src/api.c:114-132 | encryption followed by serialization |
| Ibe.DecryptIbe | bfibe/src/api.c:134-151 | parsing followed by decryption into a zeroed buffer |
| Ibe.OpenedFails | bfibe/src/api.c:134-151 | NULL is returned exactly for another security level, and otherwise as many bytes as the length field says |
| Ibe.EndToEnd | bfibe/src/api.c:114-188 | for every message, identity and number of shards, what is sealed under the summed public parameters is opened by the summed private keys, and the check passes (sections 5.4 and 5.5 of RFC 5091) |
| Onion.Wrap | prism/client/routing.py:35-40 | the loop from the target outwards builds the layers, outermost for the head |
| Onion.LayerShape | prism/common/message_utils.py:28-77 | the type, pseudonym, key, forwarding type and hop count 1 of every layer |
| Onion.OnionArrives | prism/server/CS2/roles/emix.py:37-55 | for every route length, peeling in order satisfies the type assertion, names the next member each time and ends with the original message, if and only if all members are EMIXes and the message fits the target |
| Onion.OthersCannotPeel | prism/common/message_utils.py:28-77 | a layer can be peeled by nobody but the server it was made for |
| Onion.DropboxRequestFits | prism/common/message_utils.py:28-65 | a message encrypted for a server with its pseudonym may be handed to it exactly if the server is a dropbox or an EMIX |
| Onion.OfferedExactly | prism/client/routing.py:78-91 | offered are the servers with an unused live channel, or all if there is none, and of those the ones no route started from, or all if there is none |
| Onion.StartHasChannel | prism/client/routing.py:62-136 | for every start that is offered, whether the final choice of a channel has anything to choose from: before any use if and only if one of its channels is live; later if and only if some server has an unused live channel, or the start has a used one |
| Onion.DeadStartOffered | prism/client/routing.py:62-136 | a server without a live channel is offered, with nothing to choose from |
| Onion.DeadChannelOffered | prism/client/routing.py:93-98 | a used channel that is no longer live is offered |
| Codec.FieldRoundTrip | prism/common/message.py:342-426 | a field value of any declared type is decoded to itself |
| Codec.DictEntries | prism/common/message.py:342-363 | the keys are exactly the indices of the fields that are set, and each value stands for its field's |
| Codec.RoundTrip | prism/common/message.py:342-426 | decoding the dictionary of any well-typed message, nested to any depth, gives the message back |
| Codec.DecodesExactly | prism/common/message.py:374-426 | decoding fails exactly for an absent required field or a failing conversion (or an unknown class or no dictionary); otherwise every field is its default or what it converts to, and unknown keys play no part |
| Codec.EncodingInjective | prism/common/message.py:342-363 | messages of a class have equal dictionaries only if they are equal |
| Codec.CloneUpdates | prism/common/message.py:365-372 | cloning with scalars or nested messages replaces exactly the named fields |
| Codec.DigestedIs | prism/common/message.py:869-875 | what is digested is the dictionary of the message with debug_info cleared and nothing else changed |
| Codec.DigestIgnoresDebug | prism/common/message.py:869-875 | messages are digested from equal dictionaries if and only if they agree outside debug_info |

## Left out

- Opaque primitives: AES-GCM, SHA, HKDF, ECDH, the PBC curves and cbor2's byte encoding. Hashes are arbitrary functions of fixed output length, encryption is a symbolic constructor that only the right reader opens, the pairing is any bilinear map; of CBOR only the byte string header is modelled in bytes.
- Probabilities and secrecy: error rates of Miller-Rabin, hiding of shares, anonymity. The search loops `gen_prime` and `get_commitment_parameters` end only with probability one and are not modelled, only what they return.
- Berlekamp-Welch decoding (mode 0 of Feldman's reconstruct): its field and decoder modules are not part of this model.
- `VRFDistribution`: its bounds use Decimal rounding.
- SecretSharing.BytesRoundTrip: share_bytes and reconstruct_bytes are functions over the shares that Shamir.ShareValue and Shamir.Reconstruct are proved to compute; join_shares and split_shares, which need CBOR arrays, are not modelled.
- Flooding.FloodIsBreadthFirst: assumes static neighbor sets, that no clock is more than 30 seconds behind a stamp, and that each send puts one or more copies in flight. Retry timing, the flood timeout and dead neighbors in send_flood_task are not modelled, so a message that is never sent at all is not either.
- FloodRouter.LinkStateRouter.FloodTargets: one round of send_flood_task; the copies that repeated rounds may send are the duplicates of the state machine.
- LinkState.LinkStateNetwork.UpdateRoutingTable: networkx is taken at its word, the paths are an input that may be any unweighted shortest paths (the source passes no weight, so LSP costs play no part). Writing to the tracing log is left out.
- LinkState.JourneyIsShort: assumes that all routers' tables were built for the same graph; the retries of send_target_task while a hop is missing are not modelled.
- LinkState.StampsNeverGoBack: speaks of runs without expiry; after remove_expired an older LSP may be accepted again.
- Times: the source compares floating-point seconds; the model compares exact microseconds.
- Clustered.CeilSqrt: exact, where the source rounds a floating-point root; they agree as long as the root is computed exactly enough.
- Clustered.ClusteredEmixes: with the default number of clusters; a configured number, dropboxes and clients, whose links are drawn at random, are left out.
- SendLog.SendLog.BeginAttempt: attempt is split at its yield; an exception that escapes the caller's block and so loses the entry is not modelled. Configuration values stay fixed during a run, and the redundancy is at least 1: with 0 an entry is finished before anything was sent, and the source then raises on its missing last send.
- SendLog.SendLogEntry.Try: the outcomes of find_route and post_message are inputs; an exception ends the loop after any number of targets.
- Onion.OnionArrives: mixing delays and the retries of mix_message are left out, as are party_id keys of dropboxes with several parties.
- Onion.StartHasChannel: of find_route the random sample of hops is left out; its choice of a channel is the one the condition is about.
- Ibe.EndToEnd: of the point encoding it is assumed that it has a fixed length and that multiples of the generator survive it; nothing is assumed about other points.
- Ibe.Decrypt: ciphertexts shorter than their own length field asks for, on which the C code reads beyond the buffer, are excluded; RAND_bytes delivers its bytes.
- Ibe.DecryptIbe: parameter files, base64 forms and bf_setup are left out; the summed secrets are not reduced modulo q because scalars act alike on both groups.
- Codec.RoundTrip: a field whose class is the generic CBORFactory is taken at the class its metadata names; conversions such as int("5") of foreign values are modelled as failures, which no encoded message needs.
- Codec.CloneUpdates: does not cover keyword values that are lists, which clone copies without converting their elements.
- Transport, links, neighbor discovery, scheduling, tracing, dashboards, the web API, PKI and configuration files, and the small classes (pseudonyms, message deduplication, full-threshold sharing) whose properties can be read off their code.
