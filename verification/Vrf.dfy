/** prism/common/vrf/vrf.py: RSA-FDH-VRF (section 4 of draft-irtf-cfrg-vrf-03). The hash is an
    arbitrary function with 32-byte results. */
module Vrf {
  import opened Wrappers
  import opened Modular
  import opened Primes
  import opened Octets

  const HASH_OUTLEN := 32

  type Digest = d: Bytes | |d| == HASH_OUTLEN witness seq(HASH_OUTLEN, i => 0)
  type Hash = Bytes -> Digest

  // Square and multiply

  /** The code returns the base unreduced when the power is 1, and 1 when it is 0. */
  function ModExp(b: int, power: nat, m: int): int
    requires m > 0
  {
    if power == 0 then 1 else if power == 1 then b else PowMod(b, power, m)
  }

  lemma ModExpCong(b: int, power: nat, m: int)
    requires m > 0
    ensures ModExp(b, power, m) % m == Pow(b, power) % m
    ensures power >= 2 || (power == 1 && 0 <= b < m) || (power == 0 && m > 1) ==>
              ModExp(b, power, m) == Pow(b, power) % m
    ensures power == 1 ==> ModExp(b, power, m) == b
    ensures power == 0 ==> ModExp(b, power, m) == 1
  {
    PowFirst(b);
    ModMod(Pow(b, power), m);
    SmallMod(ModExp(b, power, m) % m, m);
    if power == 1 && 0 <= b < m {
      SmallMod(b, m);
    }
    if power == 0 && m > 1 {
      SmallMod(1, m);
    }
  }

  lemma OddStep(b: int, accum: int, power: nat, m: int)
    requires m > 0 && power > 1
    ensures power % 2 == 1 ==>
              (((b * accum) % m) * Pow((b * b) % m, (power - 1) / 2)) % m == (accum * Pow(b, power)) % m
    ensures power % 2 == 0 ==>
              (accum * Pow((b * b) % m, power / 2)) % m == (accum * Pow(b, power)) % m
  {
    var h := power / 2;
    ModMod(b * b, m);
    CongPow((b * b) % m, b * b, h, m);
    PowTwo(b);
    PowMul(b, 2, h);
    if power % 2 == 1 {
      ModMod(b * accum, m);
      CongMul((b * accum) % m, b * accum, Pow((b * b) % m, h), Pow(b, 2 * h), m);
      assert power == 1 + 2 * h;
      assert (b * accum) * Pow(b, 2 * h) == accum * (b * Pow(b, 2 * h));
    } else {
      CongMul(accum, accum, Pow((b * b) % m, h), Pow(b, 2 * h), m);
    }
  }

  /** None stands for the ValueError of a negative power. */
  method ModExpLoop(b0: int, power0: int, m: int) returns (r: Option<int>)
    requires m > 0
    ensures r == if power0 < 0 then None else Some(ModExp(b0, power0, m))
  {
    if power0 < 0 {
      return None;
    }
    if power0 == 0 {
      return Some(1);
    }
    if power0 == 1 {
      return Some(b0);
    }
    var accum, b, power := 1, b0, power0;
    while power > 1
      invariant power >= 1
      invariant (accum * Pow(b, power)) % m == Pow(b0, power0) % m
      decreases power
    {
      OddStep(b, accum, power, m);
      if power % 2 == 1 {
        accum := (b * accum) % m;
        power := (power - 1) / 2;
      } else {
        power := power / 2;
      }
      b := (b * b) % m;
    }
    PowFirst(b);
    assert accum * b == b * accum;
    return Some((b * accum) % m);
  }

  // The mask generation function

  function Counter(i: nat): (c: Bytes)
    ensures i < 0x1_0000_0000 ==> ToBytes(i, 4) == Some(c)
  {
    ToBytesFits(i, 4);
    PowersOf256(4);
    if ToBytes(i, 4).Some? then ToBytes(i, 4).value else []
  }

  function MaskBlocks(sha: Hash, seed: Bytes, count: nat): (t: Bytes)
    ensures |t| == HASH_OUTLEN * count
  {
    if count == 0 then [] else MaskBlocks(sha, seed, count - 1) + sha(seed + Counter(count - 1))
  }

  function BlockCount(masklen: nat): nat {
    (masklen + HASH_OUTLEN - 1) / HASH_OUTLEN
  }

  /** None stands for the ValueError "mask too long". */
  function Mask(sha: Hash, seed: Bytes, masklen: nat): (r: Option<Bytes>)
    ensures r.Some? <==> masklen <= 0x1_0000_0000 * HASH_OUTLEN
    ensures r.Some? ==> |r.value| == masklen
  {
    if masklen > 0x1_0000_0000 * HASH_OUTLEN then None
    else Some(MaskBlocks(sha, seed, BlockCount(masklen))[..masklen])
  }

  lemma {:induction false} BlockBytes(sha: Hash, seed: Bytes, count: nat, i: nat)
    requires i < HASH_OUTLEN * count
    ensures MaskBlocks(sha, seed, count)[i] == sha(seed + Counter(i / HASH_OUTLEN))[i % HASH_OUTLEN]
  {
    if i < HASH_OUTLEN * (count - 1) {
      BlockBytes(sha, seed, count - 1, i);
    }
  }

  /** Each byte of a mask is that of the hash of the seed and its block number, whatever the length. */
  lemma MaskBytes(sha: Hash, seed: Bytes, masklen: nat, i: nat)
    requires i < masklen <= 0x1_0000_0000 * HASH_OUTLEN
    ensures Mask(sha, seed, masklen).value[i] == sha(seed + Counter(i / HASH_OUTLEN))[i % HASH_OUTLEN]
  {
    BlockBytes(sha, seed, BlockCount(masklen), i);
  }

  method Mgf1(sha: Hash, seed: Bytes, masklen: nat) returns (r: Option<Bytes>)
    ensures r == Mask(sha, seed, masklen)
  {
    if masklen > 0x1_0000_0000 * HASH_OUTLEN {
      return None;
    }
    var t: Bytes := [];
    for i := 0 to BlockCount(masklen)
      invariant t == MaskBlocks(sha, seed, i)
    {
      var c := ToBytes(i, 4);
      assert c == Some(Counter(i));
      t := t + sha(seed + c.value);
    }
    return Some(t[..masklen]);
  }

  // Proofs

  function KeySize(n: nat): nat {
    BitLength(n) / 8
  }

  /** The full-domain encoding of alpha; None when some integer does not fit its octets. */
  function Encoding(sha: Hash, n: nat, alpha: Bytes): Option<Bytes> {
    var k := KeySize(n);
    var one, size, modulus := ToBytes(1, 1), ToBytes(k, 4), ToBytes(n, k);
    if one.None? || size.None? || modulus.None? || k == 0 then None
    else Mask(sha, one.value + size.value + modulus.value + alpha, k - 1)
  }

  function ProofToHash(sha: Hash, pi: Bytes): Bytes {
    sha([2] + pi)
  }

  /** None stands for an OverflowError or ValueError. */
  function Prove(sha: Hash, n: nat, d: nat, alpha: Bytes): Option<Bytes>
    requires n > 0
  {
    var em := Encoding(sha, n, alpha);
    if em.None? then None else
      var s := ModExp(FromBytes(em.value), d, n);
      if s < 0 then None else ToBytes(s, KeySize(n))
  }

  datatype Verdict = Accepted(beta: Bytes) | Rejected | Raised

  /** Too large a message representative is a rejection; a failing encoding is an exception. */
  function Verify(sha: Hash, n: nat, e: nat, alpha: Bytes, pi: Bytes): Verdict
    requires n > 0
  {
    var m := ModExp(FromBytes(pi), e, n);
    if KeySize(n) == 0 || m < 0 then Raised else
      var em := ToBytes(m, KeySize(n) - 1);
      if em.None? then Rejected else
        var check := Encoding(sha, n, alpha);
        if check.None? then Raised
        else if em == check then Accepted(ProofToHash(sha, pi)) else Rejected
  }

  /** Moduli whose octets the encoding can write down: whole octets, fewer than 2^32. */
  predicate WritableModulus(n: nat) {
    BitLength(n) % 8 == 0 && KeySize(n) < 0x1_0000_0000
  }

  // Keys

  /** n is a product of two primes and e * d is 1 modulo p - 1 and q - 1, hence modulo their
      least common multiple. */
  ghost predicate KeyPair(n: nat, e: nat, d: nat, p: nat, q: nat) {
    && Prime(p) && Prime(q) && p != q && n == p * q
    && e >= 2 && d >= 1
    && (e * d) % (p - 1) == 1 % (p - 1) && (e * d) % (q - 1) == 1 % (q - 1)
  }

  /** Such keys exist, also with a modulus of whole octets. */
  lemma AnOctetKey(n: nat, e: nat, d: nat, p: nat, q: nat)
    requires n == 143 && e == 7 && d == 43 && p == 11 && q == 13
    ensures KeyPair(n, e, d, p, q) && BitLength(n) == 8
  {
    assert BitLength(n / 16) == 4;
  }

  lemma FermatMultiple(x: int, j: nat, p: nat)
    requires Prime(p) && x % p != 0
    ensures (p - 1) * j >= 0 && Pow(x, (p - 1) * j) % p == 1
  {
    Fermat(x, p);
    PowMul(x, p - 1, j);
    SmallMod(1, p);
    CongPow(Pow(x, p - 1), 1, j, p);
    PowOne(j);
  }

  lemma PowerFixesModPrime(x: int, f: nat, p: nat)
    requires Prime(p) && f >= 1 && f % (p - 1) == 1 % (p - 1)
    ensures Pow(x, f) % p == x % p
  {
    var y := Pow(x, f - 1);
    assert Pow(x, f) == x * y;
    if x % p == 0 {
      CongMul(x, 0, y, y, p);
    } else {
      var k := CongElim(f, 1, p - 1);
      MulAtLeast(k, p - 1);
      assert k >= 0 && f - 1 == (p - 1) * k;
      FermatMultiple(x, k, p);
      SmallMod(1, p);
      CongMul(x, x, y, 1, p);
    }
  }

  lemma ChineseRemainder(a: int, b: int, p: nat, q: nat)
    requires Prime(p) && Prime(q) && p != q && a % p == b % p && a % q == b % q
    ensures p * q > 0 && a % (p * q) == b % (p * q)
  {
    var t := CongElim(a, b, p);
    CongIsZeroDifference(a, b, q);
    assert a - b == t * p;
    NoZeroDivisors(t, p, q);
    if p % q == 0 && p < q {
      SmallMod(p, q);
    }
    var u := Divides(t, q);
    assert (u * q) * p == u * (p * q);
    assert p * q > 0;
    CongIntro(a, b, u, p * q);
  }

  /** Encrypting and decrypting is the identity modulo n. */
  lemma RsaInverse(x: int, n: nat, e: nat, d: nat, p: nat, q: nat)
    requires KeyPair(n, e, d, p, q)
    ensures n > 0 && e * d >= 1 && Pow(x, e * d) % n == x % n
  {
    MulAtLeast(e, d);
    PowerFixesModPrime(x, e * d, p);
    PowerFixesModPrime(x, e * d, q);
    ChineseRemainder(Pow(x, e * d), x, p, q);
  }

  /** Exponentiation by e is injective modulo n. */
  lemma RsaInjective(x: int, y: int, n: nat, e: nat, d: nat, p: nat, q: nat)
    requires KeyPair(n, e, d, p, q)
    ensures n > 0 && (Pow(x, e) % n == Pow(y, e) % n <==> x % n == y % n)
  {
    RsaInverse(x, n, e, d, p, q);
    RsaInverse(y, n, e, d, p, q);
    if x % n == y % n {
      CongPow(x, y, e, n);
    }
    if Pow(x, e) % n == Pow(y, e) % n {
      CongPow(Pow(x, e), Pow(y, e), d, n);
      PowMul(x, e, d);
      PowMul(y, e, d);
    }
  }

  lemma WholeOctets(n: nat)
    requires n > 0
    ensures n < Pow(256, KeySize(n)) <==> BitLength(n) % 8 == 0
    ensures KeySize(n) > 0 ==> Pow(256, KeySize(n) - 1) <= n
  {
    var bits := BitLength(n);
    assert bits <= 8 * KeySize(n) <==> bits % 8 == 0;
    BitLengthBound(n, 8 * KeySize(n));
    PowersOf256(KeySize(n));
    if KeySize(n) > 0 {
      BitLengthBound(n, 8 * (KeySize(n) - 1));
      PowersOf256(KeySize(n) - 1);
    }
  }

  lemma EncodingExists(sha: Hash, n: nat, alpha: Bytes)
    requires n > 0
    ensures Encoding(sha, n, alpha).Some? <==> WritableModulus(n)
    ensures Encoding(sha, n, alpha).Some? ==> 0 <= FromBytes(Encoding(sha, n, alpha).value) < n
  {
    var k := KeySize(n);
    WholeOctets(n);
    ToBytesFits(1, 1);
    PowFirst(256);
    ToBytesFits(k, 4);
    PowersOf256(4);
    assert Pow(2, 32) == 0x1_0000_0000 by {
      PowersOf256(2);
      PowAdd(256, 2, 2);
      PowTwo(256);
    }
    ToBytesFits(n, k);
    if Encoding(sha, n, alpha).Some? {
      FromBytesBound(Encoding(sha, n, alpha).value);
    }
  }

  /** Proving works exactly for moduli of whole octets, fewer than 2^32 of them. */
  lemma ProveSucceeds(sha: Hash, n: nat, d: nat, alpha: Bytes)
    requires n > 1 && d >= 1
    ensures Prove(sha, n, d, alpha).Some? <==> WritableModulus(n)
    ensures Prove(sha, n, d, alpha).Some? ==>
              FromBytes(Prove(sha, n, d, alpha).value) == Pow(FromBytes(Encoding(sha, n, alpha).value), d) % n
  {
    EncodingExists(sha, n, alpha);
    if Encoding(sha, n, alpha).Some? {
      var s := ModExp(FromBytes(Encoding(sha, n, alpha).value), d, n);
      ModExpCong(FromBytes(Encoding(sha, n, alpha).value), d, n);
      assert 0 <= s < n;
      WholeOctets(n);
      ToBytesFits(s, KeySize(n));
      FromToBytes(s, KeySize(n));
    }
  }

  lemma EqualEncodings(m: nat, em: Bytes)
    ensures ToBytes(m, |em|) == Some(em) <==> m == FromBytes(em)
  {
    ToFromBytes(em);
    if ToBytes(m, |em|) == Some(em) {
      FromToBytes(m, |em|);
    }
  }

  /** The verifier accepts pi exactly when it encodes the prover's s modulo n; so among the
      numbers below n only s is accepted. */
  lemma AcceptedExactly(sha: Hash, n: nat, e: nat, d: nat, p: nat, q: nat, alpha: Bytes, pi: Bytes)
    requires KeyPair(n, e, d, p, q) && n > 1
    requires Prove(sha, n, d, alpha).Some?
    ensures Verify(sha, n, e, alpha, pi) ==
            if FromBytes(pi) % n == FromBytes(Prove(sha, n, d, alpha).value) then Accepted(ProofToHash(sha, pi)) else Rejected
  {
    EncodingExists(sha, n, alpha);
    ProveSucceeds(sha, n, d, alpha);
    var em := Encoding(sha, n, alpha).value;
    var m, s, s' := FromBytes(em), FromBytes(Prove(sha, n, d, alpha).value), FromBytes(pi);
    ModExpCong(s', e, n);
    EqualEncodings(ModExp(s', e, n), em);
    // s to the e is m
    ModMod(Pow(m, d), n);
    CongPow(s, Pow(m, d), e, n);
    PowMul(m, d, e);
    assert d * e == e * d;
    RsaInverse(m, n, e, d, p, q);
    SmallMod(m, n);
    RsaInjective(s', s, n, e, d, p, q);
    SmallMod(s, n);
  }

  /** Verification for every modulus and every byte string, honest or not. With a modulus that
      cannot be written nothing is accepted: the call raises if the recovered number fits its
      octets, and rejects if not. With the others it never raises. */
  lemma VerifyOutcome(sha: Hash, n: nat, e: nat, alpha: Bytes, pi: Bytes)
    requires n > 1
    ensures ModExp(FromBytes(pi), e, n) >= 0
    ensures !WritableModulus(n) ==>
              Verify(sha, n, e, alpha, pi) ==
              if KeySize(n) == 0 || ModExp(FromBytes(pi), e, n) < Pow(256, KeySize(n) - 1) then Raised else Rejected
    ensures WritableModulus(n) ==>
              KeySize(n) > 0 && Encoding(sha, n, alpha).Some? &&
              Verify(sha, n, e, alpha, pi) ==
              if ModExp(FromBytes(pi), e, n) == FromBytes(Encoding(sha, n, alpha).value)
              then Accepted(ProofToHash(sha, pi)) else Rejected
  {
    EncodingExists(sha, n, alpha);
    var m := ModExp(FromBytes(pi), e, n);
    if KeySize(n) > 0 {
      ToBytesFits(m, KeySize(n) - 1);
    }
    if Encoding(sha, n, alpha).Some? {
      EqualEncodings(m, Encoding(sha, n, alpha).value);
    }
  }

  // What the encoding depends on

  /** The octets that are hashed for a block of the mask of an input. */
  function BlockInput(n: nat, alpha: Bytes, block: nat): Option<Bytes> {
    var size, modulus, counter := ToBytes(KeySize(n), 4), ToBytes(n, KeySize(n)), ToBytes(block, 4);
    if size.None? || modulus.None? || counter.None? then None
    else Some([1] + size.value + modulus.value + alpha + counter.value)
  }

  /** Byte i of the encoding is byte i mod 32 of the hash of the octet 1, the number of octets of the
      modulus, the modulus, the input and the number i div 32. */
  lemma EncodingBytes(sha: Hash, n: nat, alpha: Bytes, i: nat)
    requires n > 0 && WritableModulus(n) && i < KeySize(n) - 1
    ensures Encoding(sha, n, alpha).Some? && |Encoding(sha, n, alpha).value| == KeySize(n) - 1
    ensures BlockInput(n, alpha, i / HASH_OUTLEN).Some?
    ensures Encoding(sha, n, alpha).value[i] == sha(BlockInput(n, alpha, i / HASH_OUTLEN).value)[i % HASH_OUTLEN]
  {
    EncodingExists(sha, n, alpha);
    assert ToBytes(1, 1).value == [1] by {
      assert ToBytes(1 / 256, 0) == Some([]);
    }
    var seed := [1] + ToBytes(KeySize(n), 4).value + ToBytes(n, KeySize(n)).value + alpha;
    MaskBytes(sha, seed, KeySize(n) - 1, i);
    CounterFits(i / HASH_OUTLEN);
    assert ToBytes(i / HASH_OUTLEN, 4) == Some(Counter(i / HASH_OUTLEN));
  }

  lemma CounterFits(i: nat)
    requires i < 0x1_0000_0000
    ensures ToBytes(i, 4) == Some(Counter(i))
  {
  }

  /** Two inputs of one key have the same proof exactly if they have the same encoding; and a proof
      of one is accepted for the other in that case only, and rejected otherwise. */
  lemma ProofsTellApart(sha: Hash, n: nat, e: nat, d: nat, p: nat, q: nat, alpha: Bytes, alpha': Bytes)
    requires KeyPair(n, e, d, p, q) && n > 1 && WritableModulus(n)
    ensures Prove(sha, n, d, alpha).Some? && Prove(sha, n, d, alpha').Some?
    ensures Prove(sha, n, d, alpha) == Prove(sha, n, d, alpha') <==> Encoding(sha, n, alpha) == Encoding(sha, n, alpha')
    ensures var pi := Prove(sha, n, d, alpha).value;
            Verify(sha, n, e, alpha', pi) ==
            if Encoding(sha, n, alpha) == Encoding(sha, n, alpha') then Accepted(ProofToHash(sha, pi)) else Rejected
  {
    var em, em' := Encoding(sha, n, alpha), Encoding(sha, n, alpha');
    EncodingExists(sha, n, alpha);
    EncodingExists(sha, n, alpha');
    ProveSucceeds(sha, n, d, alpha);
    ProveSucceeds(sha, n, d, alpha');
    var pi := Prove(sha, n, d, alpha).value;
    AcceptedExactly(sha, n, e, d, p, q, alpha', pi);
    SmallMod(FromBytes(pi), n);
    if FromBytes(pi) == FromBytes(Prove(sha, n, d, alpha').value) {
      SignaturesDiffer(FromBytes(em.value), FromBytes(em'.value), n, e, d, p, q);
      ToFromBytes(em.value);
      ToFromBytes(em'.value);
    }
  }

  /** Signing is injective on the numbers below n. */
  lemma SignaturesDiffer(m: nat, m': nat, n: nat, e: nat, d: nat, p: nat, q: nat)
    requires KeyPair(n, e, d, p, q) && m < n && m' < n
    requires Pow(m, d) % n == Pow(m', d) % n
    ensures m == m'
  {
    CongPow(Pow(m, d), Pow(m', d), e, n);
    PowMul(m, d, e);
    PowMul(m', d, e);
    assert d * e == e * d;
    RsaInverse(m, n, e, d, p, q);
    RsaInverse(m', n, e, d, p, q);
    SmallMod(m, n);
    SmallMod(m', n);
  }

  /** From 33 octets on the encoding holds a whole hash. Unless the hash collides on the first blocks,
      two different inputs have different proofs, and neither's is accepted for the other. */
  lemma DifferentInputs(sha: Hash, n: nat, e: nat, d: nat, p: nat, q: nat, alpha: Bytes, alpha': Bytes)
    requires KeyPair(n, e, d, p, q) && n > 1 && WritableModulus(n) && KeySize(n) > HASH_OUTLEN && alpha != alpha'
    ensures BlockInput(n, alpha, 0).Some? && BlockInput(n, alpha', 0).Some?
    ensures BlockInput(n, alpha, 0) != BlockInput(n, alpha', 0)
    ensures Prove(sha, n, d, alpha).Some?
    ensures sha(BlockInput(n, alpha, 0).value) != sha(BlockInput(n, alpha', 0).value) ==>
              && Prove(sha, n, d, alpha) != Prove(sha, n, d, alpha')
              && Verify(sha, n, e, alpha', Prove(sha, n, d, alpha).value) == Rejected
  {
    ProofsTellApart(sha, n, e, d, p, q, alpha, alpha');
    EncodingBytes(sha, n, alpha, 0);
    EncodingBytes(sha, n, alpha', 0);
    BlockInputsDiffer(n, alpha, alpha');
    if Encoding(sha, n, alpha) == Encoding(sha, n, alpha') {
      forall i: nat | i < HASH_OUTLEN
        ensures sha(BlockInput(n, alpha, 0).value)[i] == sha(BlockInput(n, alpha', 0).value)[i]
      {
        EncodingBytes(sha, n, alpha, i);
        EncodingBytes(sha, n, alpha', i);
      }
    }
  }

  lemma BlockInputsDiffer(n: nat, alpha: Bytes, alpha': Bytes)
    requires BlockInput(n, alpha, 0).Some? && BlockInput(n, alpha', 0).Some? && alpha != alpha'
    ensures BlockInput(n, alpha, 0) != BlockInput(n, alpha', 0)
  {
    var front := [1] + ToBytes(KeySize(n), 4).value + ToBytes(n, KeySize(n)).value;
    var x, y := BlockInput(n, alpha, 0).value, BlockInput(n, alpha', 0).value;
    assert x[|front|..|x| - 4] == alpha && y[|front|..|y| - 4] == alpha';
  }

  /** The hash that comes with an acceptance is that of the octet 2 and the proof. */
  lemma AcceptedHash(sha: Hash, n: nat, e: nat, alpha: Bytes, pi: Bytes)
    requires n > 1 && Verify(sha, n, e, alpha, pi).Accepted?
    ensures Verify(sha, n, e, alpha, pi).beta == sha([2] + pi)
  {
  }

  lemma NineBitKey(n: nat, e: nat, d: nat, p: nat, q: nat)
    requires n == 323 && e == 5 && d == 29 && p == 17 && q == 19
    ensures KeyPair(n, e, d, p, q) && BitLength(n) == 9
  {
    assert BitLength(5) == 3 && BitLength(20) == 5;
    assert BitLength(80) == 7 && BitLength(323) == 9;
  }

  /** With a modulus of nine bits verification rejects some byte strings and raises on others. */
  lemma NineBits(sha: Hash, n: nat, e: nat, d: nat, p: nat, q: nat, alpha: Bytes)
    requires n == 323 && e == 5 && d == 29 && p == 17 && q == 19
    ensures KeyPair(n, e, d, p, q) && BitLength(n) == 9
    ensures Verify(sha, n, e, alpha, [2]) == Rejected && Verify(sha, n, e, alpha, [0]) == Raised
  {
    NineBitKey(n, e, d, p, q);
    VerifyOutcome(sha, n, e, alpha, [2]);
    VerifyOutcome(sha, n, e, alpha, [0]);
    assert [2][..0] == [] && [0][..0] == [];
    assert FromBytes([2]) == 2 && FromBytes([0]) == 0;
    SmallPowers();
  }

  lemma SmallPowers()
    ensures Pow(2, 5) == 32 && Pow(0, 5) == 0 && Pow(256, 0) == 1
  {
    assert Pow(2, 3) == 8;
  }

  /** What the prover made is accepted, with the prover's own hash. */
  lemma Completeness(sha: Hash, n: nat, e: nat, d: nat, p: nat, q: nat, alpha: Bytes)
    requires KeyPair(n, e, d, p, q) && n > 1
    requires WritableModulus(n)
    ensures Prove(sha, n, d, alpha).Some?
    ensures var pi := Prove(sha, n, d, alpha).value;
            Verify(sha, n, e, alpha, pi) == Accepted(ProofToHash(sha, pi))
  {
    ProveSucceeds(sha, n, d, alpha);
    var pi := Prove(sha, n, d, alpha).value;
    AcceptedExactly(sha, n, e, d, p, q, alpha, pi);
    EncodingExists(sha, n, alpha);
    SmallMod(FromBytes(pi), n);
  }

  /** Two accepted encodings of numbers below n, of equal length, are the same. */
  lemma UniqueProof(sha: Hash, n: nat, e: nat, d: nat, p: nat, q: nat, alpha: Bytes, pi: Bytes, pi': Bytes)
    requires KeyPair(n, e, d, p, q) && n > 1 && Prove(sha, n, d, alpha).Some?
    requires |pi| == |pi'| && FromBytes(pi) < n && FromBytes(pi') < n
    requires Verify(sha, n, e, alpha, pi).Accepted? && Verify(sha, n, e, alpha, pi').Accepted?
    ensures pi == pi'
  {
    AcceptedExactly(sha, n, e, d, p, q, alpha, pi);
    AcceptedExactly(sha, n, e, d, p, q, alpha, pi');
    SmallMod(FromBytes(pi), n);
    SmallMod(FromBytes(pi'), n);
    ToFromBytes(pi);
    ToFromBytes(pi');
  }
}
