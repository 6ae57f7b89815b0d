/** bfibe/src: Boneh-Franklin identity-based encryption (sections 5.4 and 5.5 of RFC 5091) over
    any groups with a bilinear pairing, with key shards and the byte layout of messages. */
module Ibe {
  import opened Wrappers
  import opened Modular
  import opened Octets

  /** Exclusive or of the k low bits. */
  function XorBits(a: nat, b: nat, k: nat): (r: nat)
    ensures r < Pow(2, k)
  {
    if k == 0 then 0 else (a + b) % 2 + 2 * XorBits(a / 2, b / 2, k - 1)
  }

  function Xor(a: Byte, b: Byte): Byte {
    assert Pow(2, 8) == 256 by {
      PowersOf256(1);
      PowFirst(256);
    }
    XorBits(a, b, 8)
  }

  /** A number from its lowest bit and the rest. */
  lemma LowBit(a: nat, b: nat, high: nat)
    ensures ((a + b) % 2 + 2 * high) / 2 == high
    ensures (a + ((a + b) % 2 + 2 * high)) % 2 == b % 2
  {
  }

  lemma HalvesBelow(b: nat, k: nat)
    requires k > 0 && b < Pow(2, k)
    ensures b / 2 < Pow(2, k - 1)
  {
  }

  lemma {:induction false} XorBitsTwice(a: nat, b: nat, k: nat)
    requires b < Pow(2, k)
    ensures XorBits(a, XorBits(a, b, k), k) == b
  {
    if k > 0 {
      HalvesBelow(b, k);
      XorBitsTwice(a / 2, b / 2, k - 1);
      LowBit(a, b, XorBits(a / 2, b / 2, k - 1));
    }
  }

  /** Bit i of a number. */
  function Bit(x: nat, i: nat): nat {
    PowPositive(2, i);
    (x / Pow(2, i)) % 2
  }

  lemma HalfOfQuotient(x: nat, p: nat)
    requires p > 0
    ensures (x / 2) / p == x / (2 * p)
  {
    var q, r := (x / 2) / p, (x / 2) % p;
    assert x == 2 * (x / 2) + x % 2 && x / 2 == q * p + r;
    assert 2 * (q * p) == q * (2 * p);
    DivModUnique(x, q, 2 * r + x % 2, 2 * p);
  }

  /** The bits of a number from the second on are the bits of its half. */
  lemma BitOfHalf(x: nat, i: nat)
    requires i > 0
    ensures Bit(x, i) == Bit(x / 2, i - 1)
  {
    PowPositive(2, i - 1);
    HalfOfQuotient(x, Pow(2, i - 1));
  }

  lemma {:induction false} XorBit(a: nat, b: nat, k: nat, i: nat)
    requires i < k
    ensures Bit(XorBits(a, b, k), i) == if Bit(a, i) != Bit(b, i) then 1 else 0
  {
    LowBit(a, b, XorBits(a / 2, b / 2, k - 1));
    if i == 0 {
      assert Pow(2, 0) == 1;
    } else {
      BitOfHalf(a, i);
      BitOfHalf(b, i);
      BitOfHalf(XorBits(a, b, k), i);
      XorBit(a / 2, b / 2, k - 1, i - 1);
    }
  }

  /** Bit by bit: 1 exactly where the two bytes differ. */
  lemma XorByBits(a: Byte, b: Byte, i: nat)
    requires i < 8
    ensures Bit(Xor(a, b), i) == if Bit(a, i) != Bit(b, i) then 1 else 0
  {
    XorBit(a, b, 8, i);
  }

  lemma {:induction false} XorBitsKeeps(a: nat, b: nat, k: nat)
    requires a < Pow(2, k) && b < Pow(2, k)
    ensures XorBits(a, b, k) == b <==> a == 0
  {
    if k > 0 {
      HalvesBelow(a, k);
      HalvesBelow(b, k);
      XorBitsKeeps(a / 2, b / 2, k - 1);
      LowBit(a, b, XorBits(a / 2, b / 2, k - 1));
    }
  }

  /** A byte survives exactly if it is combined with 0. */
  lemma XorKeeps(a: Byte, b: Byte)
    ensures Xor(a, b) == b <==> a == 0
  {
    PowersOf256(1);
    PowFirst(256);
    XorBitsKeeps(a, b, 8);
  }

  lemma {:induction false} XorBitsCancel(a: nat, a': nat, b: nat, k: nat)
    requires a < Pow(2, k) && a' < Pow(2, k) && XorBits(a, b, k) == XorBits(a', b, k)
    ensures a == a'
  {
    if k > 0 {
      HalvesBelow(a, k);
      HalvesBelow(a', k);
      LowBit(a, b, XorBits(a / 2, b / 2, k - 1));
      LowBit(a', b, XorBits(a' / 2, b / 2, k - 1));
      SameLowBit(a, a', b, XorBits(a / 2, b / 2, k - 1), XorBits(a' / 2, b / 2, k - 1));
      XorBitsCancel(a / 2, a' / 2, b / 2, k - 1);
    }
  }

  lemma SameLowBit(a: nat, a': nat, b: nat, high: nat, high': nat)
    requires (a + b) % 2 + 2 * high == (a' + b) % 2 + 2 * high'
    ensures a % 2 == a' % 2 && high == high'
  {
  }

  function XorAll(a: Bytes, b: Bytes): (c: Bytes)
    requires |a| == |b|
    ensures |c| == |a| && forall i :: 0 <= i < |c| ==> c[i] == Xor(a[i], b[i])
  {
    seq(|a|, i requires 0 <= i < |a| => Xor(a[i], b[i]))
  }

  /** Elements of the two source groups and of the target group, by arbitrary names. */
  datatype G1 = G1(name: nat)
  datatype G2 = G2(name: nat)
  datatype GT = GT(name: nat)

  /** The groups, the pairing, the hash and the encodings of one base system. */
  datatype System = System(
    level: Byte, q: nat, hashlen: nat, hash: Bytes -> Bytes,
    P: G1, mul1: (G1, nat) -> G1, add1: (G1, G1) -> G1,
    mul2: (G2, nat) -> G2, add2: (G2, G2) -> G2,
    pair: (G1, G2) -> GT, pow: (GT, nat) -> GT,
    hashToPoint: Bytes -> G2, gtToBytes: GT -> Bytes,
    elementLength: nat, elementToBytes: G1 -> Bytes, elementFromBytes: Bytes -> G1)

  /** Hashes and encoded points have fixed lengths. */
  ghost predicate Sized(s: System) {
    && s.q > 0 && s.hashlen > 0
    && (forall x :: |s.hash(x)| == s.hashlen)
    && forall g :: |s.elementToBytes(g)| == s.elementLength
  }

  /** A point survives its encoding. */
  ghost predicate Encodable(s: System, g: G1) {
    s.elementFromBytes(s.elementToBytes(g)) == g
  }

  /** The multiples of the generator survive their encoding. */
  ghost predicate Encodes(s: System) {
    Sized(s) && forall l: nat :: l < s.q ==> Encodable(s, s.mul1(s.P, l))
  }

  /** Scalars distribute over sums and may be moved through the pairing. */
  ghost predicate Bilinear(s: System) {
    && (forall g, m: nat, n: nat :: s.add1(s.mul1(g, m), s.mul1(g, n)) == s.mul1(g, m + n))
    && (forall g, m: nat, n: nat :: s.add2(s.mul2(g, m), s.mul2(g, n)) == s.mul2(g, m + n))
    && (forall g, h, m: nat :: s.pair(s.mul1(g, m), h) == s.pow(s.pair(g, h), m))
    && (forall g, h, m: nat :: s.pair(g, s.mul2(h, m)) == s.pow(s.pair(g, h), m))
    && forall t, m: nat, n: nat :: s.pow(s.pow(t, m), n) == s.pow(s.pow(t, n), m)
  }

  // Systems of this kind: exponents modulo q

  function Fixed(n: nat, width: nat): (bs: Bytes)
    ensures |bs| == width
  {
    if ToBytes(n, width).Some? then ToBytes(n, width).value else Zeros(width)
  }

  /** Group elements are their exponents; the pairing multiplies them. */
  function ExponentSystem(level: Byte, q: nat, hashlen: nat, hash: Bytes -> Bytes, point: Bytes -> nat, width: nat): System
    requires q > 0
  {
    System(level, q, hashlen, hash,
           G1(1), (g: G1, m: nat) => G1((g.name * m) % q), (g: G1, h: G1) => G1((g.name + h.name) % q),
           (g: G2, m: nat) => G2((g.name * m) % q), (g: G2, h: G2) => G2((g.name + h.name) % q),
           (g: G1, h: G2) => GT((g.name * h.name) % q), (t: GT, m: nat) => GT((t.name * m) % q),
           x => G2(point(x)), (t: GT) => Fixed(t.name, width),
           width, (g: G1) => Fixed(g.name, width), bs => G1(FromBytes(bs)))
  }

  lemma SumOfProducts(g: nat, m: nat, n: nat, q: nat)
    requires q > 0
    ensures ((g * m) % q + (g * n) % q) % q == (g * (m + n)) % q
  {
    ModMod(g * m, q);
    ModMod(g * n, q);
    CongAdd((g * m) % q, g * m, (g * n) % q, g * n, q);
    assert g * m + g * n == g * (m + n);
  }

  lemma ProductOfProducts(a: nat, b: nat, m: nat, q: nat)
    requires q > 0
    ensures (((a * b) % q) * m) % q == (a * b * m) % q
  {
    ModMod(a * b, q);
    CongMul((a * b) % q, a * b, m, m, q);
  }

  lemma Exchange(a: nat, b: nat, m: nat, q: nat)
    requires q > 0
    ensures (((a * m) % q) * b) % q == (((a * b) % q) * m) % q
    ensures (a * ((b * m) % q)) % q == (((a * b) % q) * m) % q
  {
    ProductOfProducts(a, m, b, q);
    ProductOfProducts(a, b, m, q);
    ProductOfProducts(b, m, a, q);
    assert a * m * b == a * b * m && b * m * a == a * b * m;
    assert a * ((b * m) % q) == ((b * m) % q) * a;
  }

  lemma ExponentsBilinear(level: Byte, q: nat, hashlen: nat, hash: Bytes -> Bytes, point: Bytes -> nat, width: nat)
    requires q > 0
    ensures Bilinear(ExponentSystem(level, q, hashlen, hash, point, width))
  {
    var s := ExponentSystem(level, q, hashlen, hash, point, width);
    forall g: nat, m: nat, n: nat ensures ((g * m) % q + (g * n) % q) % q == (g * (m + n)) % q {
      SumOfProducts(g, m, n, q);
    }
    forall g: G1, h: G2, m: nat
      ensures s.pair(s.mul1(g, m), h) == s.pow(s.pair(g, h), m) == s.pair(g, s.mul2(h, m))
    {
      Exchange(g.name, h.name, m, q);
    }
    forall t: GT, m: nat, n: nat ensures s.pow(s.pow(t, m), n) == s.pow(s.pow(t, n), m) {
      Exchange(t.name, n, m, q);
    }
  }

  lemma ExponentEncodable(l: nat, q: nat, width: nat)
    requires l < q <= Pow(256, width)
    ensures (1 * l) % q == l && FromBytes(Fixed(l, width)) == l
  {
    SmallMod(l, q);
    ToBytesFits(l, width);
    FromToBytes(l, width);
  }

  /** All that is asked of a system can be met, by a pairing that is not constant, for every order
      and every hash. */
  lemma ExponentsQualify(level: Byte, q: nat, hashlen: nat, hash: Bytes -> Bytes, point: Bytes -> nat, width: nat)
    requires 2 <= q <= Pow(256, width) && hashlen > 0 && forall x :: |hash(x)| == hashlen
    ensures var s := ExponentSystem(level, q, hashlen, hash, point, width);
            Encodes(s) && Bilinear(s) && s.pair(s.P, G2(1)) != s.pow(s.pair(s.P, G2(1)), 0)
  {
    var s := ExponentSystem(level, q, hashlen, hash, point, width);
    forall l: nat | l < q ensures Encodable(s, s.mul1(s.P, l)) {
      ExponentEncodable(l, q, width);
    }
    ExponentsBilinear(level, q, hashlen, hash, point, width);
    SmallMod(1, q);
    SmallMod(0, q);
  }

  // Keys and shards

  /** Public parameters: the security level, the order and the public key. */
  datatype Public = Public(level: Byte, q: nat, key: G1)

  function PublicShard(s: System, secret: nat): Public {
    Public(s.level, s.q, s.mul1(s.P, secret))
  }

  function PrivateKey(s: System, secret: nat, identity: Bytes): G2 {
    s.mul2(s.hashToPoint(identity), secret)
  }

  /** None stands for NULL: different levels or orders. */
  function AddPublic(s: System, a: Public, b: Public): Option<Public> {
    if a.level != b.level || a.q != b.q then None else Some(a.(key := s.add1(a.key, b.key)))
  }

  /** add_public over any public parameters, in order. */
  function SumPublic(s: System, publics: seq<Public>): Option<Public>
    requires publics != []
  {
    if |publics| == 1 then Some(publics[0]) else
      var front := SumPublic(s, publics[..|publics| - 1]);
      if front.None? then None else AddPublic(s, front.value, publics[|publics| - 1])
  }

  /** Public parameters can be summed exactly if they are all of one level and one order. */
  lemma {:induction false} SumPublicSucceeds(s: System, publics: seq<Public>)
    requires publics != []
    ensures SumPublic(s, publics).Some? <==>
            forall i :: 0 <= i < |publics| ==> publics[i].level == publics[0].level && publics[i].q == publics[0].q
    ensures SumPublic(s, publics).Some? ==>
              SumPublic(s, publics).value.level == publics[0].level && SumPublic(s, publics).value.q == publics[0].q
  {
    if |publics| > 1 {
      var front := publics[..|publics| - 1];
      SumPublicSucceeds(s, front);
      assert forall i :: 0 <= i < |front| ==> front[i] == publics[i];
    }
  }

  /** add_secret over the private keys of one identity. */
  function SumPrivate(s: System, secrets: seq<nat>, identity: Bytes): G2
    requires secrets != []
  {
    if |secrets| == 1 then PrivateKey(s, secrets[0], identity)
    else s.add2(SumPrivate(s, secrets[..|secrets| - 1], identity), PrivateKey(s, secrets[|secrets| - 1], identity))
  }

  function Total(secrets: seq<nat>): nat {
    if secrets == [] then 0 else Total(secrets[..|secrets| - 1]) + secrets[|secrets| - 1]
  }

  /** The public parameters of key shards over one base system. */
  function Shards(s: System, secrets: seq<nat>): (publics: seq<Public>)
    ensures |publics| == |secrets| && forall i :: 0 <= i < |secrets| ==> publics[i] == PublicShard(s, secrets[i])
  {
    seq(|secrets|, i requires 0 <= i < |secrets| => PublicShard(s, secrets[i]))
  }

  /** The sums of the shards are the keys of the sum of the secrets. */
  lemma {:induction false} ShardsAddUp(s: System, secrets: seq<nat>, identity: Bytes)
    requires Bilinear(s) && secrets != []
    ensures SumPublic(s, Shards(s, secrets)) == Some(PublicShard(s, Total(secrets)))
    ensures SumPrivate(s, secrets, identity) == PrivateKey(s, Total(secrets), identity)
  {
    if |secrets| == 1 {
      assert Total(secrets[..0]) == 0;
    } else {
      var front := secrets[..|secrets| - 1];
      ShardsAddUp(s, front, identity);
      assert Shards(s, secrets)[..|secrets| - 1] == Shards(s, front);
    }
  }

  /** Both sides compute the same element of the target group. */
  lemma SharedElement(s: System, secrets: seq<nat>, identity: Bytes, l: nat)
    requires Bilinear(s) && secrets != []
    ensures SumPublic(s, Shards(s, secrets)).Some?
    ensures s.pair(s.mul1(s.P, l), SumPrivate(s, secrets, identity)) ==
            s.pow(s.pair(SumPublic(s, Shards(s, secrets)).value.key, s.hashToPoint(identity)), l)
  {
    ShardsAddUp(s, secrets, identity);
    var t, h := Total(secrets), s.hashToPoint(identity);
    assert s.pair(s.mul1(s.P, l), s.mul2(h, t)) == s.pow(s.pair(s.mul1(s.P, l), h), t);
    assert s.pair(s.mul1(s.P, t), h) == s.pow(s.pair(s.P, h), t);
  }

  // hash.c

  function Zeros(n: nat): (z: Bytes)
    ensures |z| == n && forall i :: 0 <= i < n ==> z[i] == 0
  {
    seq(n, i => 0)
  }

  /** The two rounds of hash_to_range. */
  function HashToRange(s: System, input: Bytes): nat
    requires s.q > 0
  {
    var h1 := s.hash(Zeros(s.hashlen) + input);
    var h2 := s.hash(h1 + input);
    var vmul := Pow(256, s.hashlen);
    var v := FromBytes(h1) * vmul + FromBytes(h2);
    v % s.q
  }

  /** Two chained hashes, read as one number, modulo q (section 4.1.1 of RFC 5091). */
  lemma HashToRangeIs(s: System, input: Bytes)
    requires Sized(s)
    ensures var h1 := s.hash(Zeros(s.hashlen) + input);
            HashToRange(s, input) == FromBytes(h1 + s.hash(h1 + input)) % s.q
    ensures HashToRange(s, input) < s.q
  {
    var h1 := s.hash(Zeros(s.hashlen) + input);
    FromBytesConcat(h1, s.hash(h1 + input));
  }

  method HashToRangeLoop(s: System, input: Bytes) returns (result: int)
    requires s.q > 0
    ensures result == HashToRange(s, input)
  {
    var h := Zeros(s.hashlen);
    var v, vmul := 0, Pow(256, s.hashlen);
    for i := 0 to 2
      invariant i == 0 ==> h == Zeros(s.hashlen) && v == 0
      invariant i == 1 ==> h == s.hash(Zeros(s.hashlen) + input) && v == FromBytes(h)
      invariant i == 2 ==> v % s.q == HashToRange(s, input)
    {
      h := s.hash(h + input);
      assert 0 * vmul == 0;
      v := v * vmul + FromBytes(h);
    }
    result := v % s.q;
  }

  function Overwrite(buffer: Bytes, at: nat, data: Bytes): (r: Bytes)
    requires at + |data| <= |buffer|
    ensures |r| == |buffer|
  {
    buffer[..at] + data + buffer[at + |data|..]
  }

  /** What hash_to_bytes leaves in a buffer of which the first copied bytes are done. The last
      block goes to the front of the buffer, so bytes behind the full blocks keep their values. */
  function Fill(s: System, buffer: Bytes, K: Bytes, h: Bytes, copied: nat): (r: Bytes)
    requires copied <= |buffer| && s.hashlen > 0
    ensures |r| == |buffer|
    decreases |buffer| - copied
  {
    var remaining := |buffer| - copied;
    if remaining == 0 then buffer else
      var h' := s.hash(h);
      var block := s.hash(h' + K);
      if |block| != s.hashlen then buffer
      else if remaining > s.hashlen then Fill(s, Overwrite(buffer, copied, block), K, h', copied + s.hashlen)
      else Overwrite(buffer, 0, block[..remaining])
  }

  function HashBytes(s: System, buffer: Bytes, seed: Bytes): (r: Bytes)
    requires s.hashlen > 0
    ensures |r| == |buffer|
  {
    Fill(s, buffer, s.hash(seed), Zeros(s.hashlen), 0)
  }

  /** The k-th block of the key stream, from k = 1. */
  function Block(s: System, K: Bytes, k: nat): Bytes {
    s.hash(Chained(s, k) + K)
  }

  function Chained(s: System, k: nat): Bytes {
    if k == 0 then Zeros(s.hashlen) else s.hash(Chained(s, k - 1))
  }

  /** How many blocks are copied behind one another before the last one. */
  function FullBlocks(n: nat, h: nat): nat
    requires n > 0 && h > 0
  {
    (n - 1) / h
  }

  lemma FullBlocksBounds(n: nat, h: nat)
    requires n > 0 && h > 0
    ensures FullBlocks(n, h) * h < n <= FullBlocks(n, h) * h + h
  {
  }

  lemma FullBlocksUnique(n: nat, h: nat, k: nat)
    requires h > 0 && k * h < n <= k * h + h
    ensures FullBlocks(n, h) == k
  {
    DivModUnique(n - 1, k, n - 1 - k * h, h);
  }

  function ByteAt(bs: Bytes, i: int): int {
    if 0 <= i < |bs| then bs[i] else 0
  }

  /** Byte i of what a buffer becomes from round k on: the last block goes to the front, the full
      blocks follow one another, the rest keeps its value. */
  function ShapedByte(s: System, buffer: Bytes, K: Bytes, k: nat, i: nat): int
    requires Sized(s) && i < |buffer|
  {
    var h, full := s.hashlen, FullBlocks(|buffer|, s.hashlen);
    if i < |buffer| - full * h then ByteAt(Block(s, K, full + 1), i)
    else if k * h <= i < full * h then ByteAt(Block(s, K, i / h + 1), i % h)
    else buffer[i]
  }

  lemma {:induction false} FillShape(s: System, buffer: Bytes, K: Bytes, k: nat, at: nat, i: nat)
    requires Sized(s) && at == k * s.hashlen < |buffer| && i < |buffer|
    ensures Fill(s, buffer, K, Chained(s, k), at)[i] == ShapedByte(s, buffer, K, k, i)
    decreases |buffer| - at
  {
    var h, n, block := s.hashlen, |buffer|, Block(s, K, k + 1);
    assert Chained(s, k + 1) == s.hash(Chained(s, k));
    if n - at > h {
      var next := Overwrite(buffer, at, block);
      assert (k + 1) * h == at + h;
      FillShape(s, next, K, k + 1, at + h, i);
      ShapeStep(s, buffer, K, k, at, i);
    } else {
      FullBlocksUnique(n, h, k);
    }
  }

  lemma BlocksFollow(k: nat, full: nat, h: nat, n: nat)
    requires k * h + h < n <= full * h + h
    ensures k < full && k * h + h <= full * h
  {
    if full <= k {
      MulMonotone(full, k, h);
      assert false;
    }
    MulMonotone(k + 1, full, h);
  }

  /** Copying block k + 1 to its place does not change what the buffer becomes. */
  lemma ShapeStep(s: System, buffer: Bytes, K: Bytes, k: nat, at: nat, i: nat)
    requires Sized(s) && at == k * s.hashlen && at + s.hashlen < |buffer| && i < |buffer|
    ensures ShapedByte(s, Overwrite(buffer, at, Block(s, K, k + 1)), K, k + 1, i) == ShapedByte(s, buffer, K, k, i)
  {
    var h, n := s.hashlen, |buffer|;
    FullBlocksBounds(n, h);
    BlocksFollow(k, FullBlocks(n, h), h, n);
    assert (k + 1) * h == at + h;
    if at <= i < at + h {
      DivModUnique(i, k, i - at, h);
    }
  }

  /** The blocks hash a chain of hashes that starts from zeros, each followed by the hashed seed. */
  lemma BlocksAre(s: System, K: Bytes, k: nat)
    ensures Block(s, K, 1) == s.hash(s.hash(Zeros(s.hashlen)) + K)
    ensures Block(s, K, 2) == s.hash(s.hash(s.hash(Zeros(s.hashlen))) + K)
    ensures Chained(s, k + 1) == s.hash(Chained(s, k)) && Block(s, K, k) == s.hash(Chained(s, k) + K)
  {
    assert Chained(s, 1) == s.hash(Chained(s, 0));
    assert Chained(s, 2) == s.hash(Chained(s, 1));
  }

  /** With at most one block the buffer is the start of the key stream; otherwise the bytes from
      the end of the full blocks on keep their values. */
  lemma HashBytesTail(s: System, buffer: Bytes, seed: Bytes, i: nat)
    requires Sized(s) && i < |buffer|
    ensures |buffer| <= s.hashlen ==> HashBytes(s, buffer, seed)[i] == ByteAt(Block(s, s.hash(seed), 1), i)
    ensures |buffer| > s.hashlen && i >= FullBlocks(|buffer|, s.hashlen) * s.hashlen ==>
              HashBytes(s, buffer, seed)[i] == buffer[i]
  {
    var h, n := s.hashlen, |buffer|;
    FillShape(s, buffer, s.hash(seed), 0, 0, i);
    FullBlocksBounds(n, h);
    if n <= h {
      FullBlocksUnique(n, h, 0);
    } else {
      assert FullBlocks(n, h) >= 1;
      MulAtLeast(FullBlocks(n, h), h);
    }
  }

  /** memcpy. */
  method Copy(dst: array<Byte>, at: nat, src: Bytes)
    requires at + |src| <= dst.Length
    modifies dst
    ensures dst[..] == Overwrite(old(dst[..]), at, src)
  {
    forall i | 0 <= i < |src| {
      dst[at + i] := src[i];
    }
  }

  method HashToBytes(s: System, result: array<Byte>, seed: Bytes)
    requires Sized(s)
    modifies result
    ensures result[..] == HashBytes(s, old(result[..]), seed)
  {
    var remaining, copied := result.Length, 0;
    var K := s.hash(seed);
    var h := Zeros(s.hashlen);
    while remaining > 0
      invariant 0 <= remaining && copied + remaining == result.Length
      invariant remaining > 0 ==> Fill(s, result[..], K, h, copied) == HashBytes(s, old(result[..]), seed)
      invariant remaining == 0 ==> result[..] == HashBytes(s, old(result[..]), seed)
    {
      h := s.hash(h);
      var r := s.hash(h + K);
      if remaining > s.hashlen {
        Copy(result, copied, r);
        copied := copied + s.hashlen;
        remaining := remaining - s.hashlen;
      } else {
        Copy(result, 0, r[..remaining]);
        copied := copied + remaining;
        remaining := 0;
      }
    }
  }

  // bfibe.c

  datatype Message = Message(length: nat, U: G1, V: Bytes, W: Bytes)

  function Encrypted(s: System, P_pub: G1, key: G2, m: Bytes, rho: Bytes): Message
    requires s.q > 0 && s.hashlen > 0 && |rho| == s.hashlen && forall x :: |s.hash(x)| == s.hashlen
  {
    var l := HashToRange(s, rho + s.hash(m));
    var theta := s.pow(s.pair(P_pub, key), l);
    Message(|m|, s.mul1(s.P, l), XorAll(s.hash(s.gtToBytes(theta)), rho),
            XorAll(HashBytes(s, Zeros(|m|), rho), m))
  }

  /** The decrypted bytes and whether the check that U is [l]P passed; a failed check clears them. */
  function Decrypted(s: System, key: G2, msg: Message, output: Bytes): (Bytes, bool)
    requires s.q > 0 && s.hashlen > 0 && forall x :: |s.hash(x)| == s.hashlen
    requires |msg.V| == s.hashlen && |msg.W| == msg.length == |output|
  {
    var w := XorAll(s.hash(s.gtToBytes(s.pair(msg.U, key))), msg.V);
    var m := XorAll(HashBytes(s, output, w), msg.W);
    var l := HashToRange(s, w + s.hash(m));
    if msg.U == s.mul1(s.P, l) then (m, true) else (Zeros(msg.length), false)
  }

  /** XOR loops over a C buffer. */
  method XorInto(a: array<Byte>, b: Bytes)
    requires a.Length == |b|
    modifies a
    ensures a[..] == XorAll(old(a[..]), b)
  {
    for i := 0 to a.Length
      invariant forall k :: 0 <= k < i ==> a[k] == Xor(old(a[k]), b[k])
      invariant forall k :: i <= k < a.Length ==> a[k] == old(a[k])
    {
      a[i] := Xor(a[i], b[i]);
    }
  }

  /** rho stands for what RAND_bytes delivered. */
  method Encrypt(s: System, P_pub: G1, key: G2, m: Bytes, rho: Bytes) returns (msg: Message)
    requires Sized(s) && |rho| == s.hashlen
    ensures msg == Encrypted(s, P_pub, key, m, rho)
  {
    var t := s.hash(m);
    var l := HashToRangeLoop(s, rho + t);
    var U := s.mul1(s.P, l);
    var theta := s.pow(s.pair(P_pub, key), l);
    var z := s.gtToBytes(theta);
    var V := Buffer(s.hash(z));
    XorInto(V, rho);
    var W := Buffer(Zeros(|m|));
    HashToBytes(s, W, rho);
    XorInto(W, m);
    msg := Message(|m|, U, V[..], W[..]);
  }

  method Buffer(contents: Bytes) returns (a: array<Byte>)
    ensures fresh(a) && a[..] == contents
  {
    a := new Byte[|contents|](i requires 0 <= i < |contents| => contents[i]);
  }

  method Decrypt(s: System, output: array<Byte>, key: G2, msg: Message) returns (ok: bool)
    requires Sized(s) && |msg.V| == s.hashlen && |msg.W| == msg.length == output.Length
    modifies output
    ensures (output[..], ok) == Decrypted(s, key, msg, old(output[..]))
  {
    var z := s.gtToBytes(s.pair(msg.U, key));
    var w := Buffer(s.hash(z));
    XorInto(w, msg.V);
    HashToBytes(s, output, w[..]);
    XorInto(output, msg.W);
    var t := s.hash(output[..]);
    var l := HashToRangeLoop(s, w[..] + t);
    ok := true;
    if msg.U != s.mul1(s.P, l) {
      ok := false;
      Copy(output, 0, Zeros(msg.length));
      assert output[..] == Zeros(msg.length);
    }
  }

  // export.c: an eight-byte little-endian length, the level, U, V and W

  function LittleEndian(n: nat, len: nat): (bs: Bytes)
    ensures |bs| == len
  {
    if len == 0 then [] else [n % 256] + LittleEndian(n / 256, len - 1)
  }

  function FromLittleEndian(bs: Bytes): nat {
    if bs == [] then 0 else bs[0] + 256 * FromLittleEndian(bs[1..])
  }

  lemma {:induction false} LittleEndianRoundTrip(n: nat, len: nat)
    requires n < Pow(256, len)
    ensures FromLittleEndian(LittleEndian(n, len)) == n
  {
    if len > 0 {
      LittleEndianRoundTrip(n / 256, len - 1);
    }
  }

  function Serialized(s: System, msg: Message): Bytes {
    LittleEndian(msg.length, 8) + [s.level] + s.elementToBytes(msg.U) + msg.V + msg.W
  }

  /** Byte i of the length field stands for 256^i. */
  lemma {:induction false} LittleEndianBytes(n: nat, len: nat, i: nat)
    requires i < len
    ensures Pow(256, i) > 0 && LittleEndian(n, len)[i] == (n / Pow(256, i)) % 256
  {
    PowPositive(256, i);
    if i > 0 {
      PowPositive(256, i - 1);
      LittleEndianBytes(n / 256, len - 1, i - 1);
      QuotientOfQuotient(n, Pow(256, i - 1));
    }
  }

  lemma QuotientOfQuotient(n: nat, p: nat)
    requires p > 0
    ensures (n / 256) / p == n / (256 * p)
  {
    var q, r := (n / 256) / p, (n / 256) % p;
    assert n == 256 * (n / 256) + n % 256 && n / 256 == q * p + r;
    assert 256 * (q * p) == q * (256 * p);
    DivModUnique(n, q, 256 * r + n % 256, 256 * p);
  }

  /** Where everything is: the length in bytes 0 to 7, the level in byte 8, then U, V and W. */
  lemma SerializedLayout(s: System, msg: Message)
    requires Sized(s) && |msg.V| == s.hashlen && |msg.W| == msg.length
    ensures var bs, u := Serialized(s, msg), 9 + s.elementLength;
            && |bs| == u + s.hashlen + msg.length
            && (forall i: nat :: i < 8 ==> Pow(256, i) > 0 && bs[i] == (msg.length / Pow(256, i)) % 256)
            && bs[8] == s.level && bs[9..u] == s.elementToBytes(msg.U)
            && bs[u..u + s.hashlen] == msg.V && bs[u + s.hashlen..] == msg.W
  {
    var bs, n, u := Serialized(s, msg), LittleEndian(msg.length, 8), 9 + s.elementLength;
    forall i: nat | i < 8 ensures Pow(256, i) > 0 && bs[i] == (msg.length / Pow(256, i)) % 256 {
      LittleEndianBytes(msg.length, 8, i);
      assert bs[i] == n[i];
    }
    assert bs[9..u] == s.elementToBytes(msg.U) && bs[u..u + s.hashlen] == msg.V && bs[u + s.hashlen..] == msg.W;
  }

  /** The ciphertext is as long as its own length field asks for. */
  predicate LongEnough(s: System, input: Bytes) {
    |input| >= 9 && |input| >= 9 + s.elementLength + s.hashlen + FromLittleEndian(input[..8])
  }

  /** None stands for the wrong security level. */
  function Parsed(s: System, input: Bytes): Option<Message>
    requires LongEnough(s, input)
  {
    var length := FromLittleEndian(input[..8]);
    if input[8] != s.level then None else
      var v := 9 + s.elementLength;
      var w := v + s.hashlen;
      Some(Message(length, s.elementFromBytes(input[9..v]), input[v..w], input[w..w + length]))
  }

  method MessageToBytes(s: System, msg: Message) returns (out: array<Byte>)
    requires Sized(s) && |msg.V| == s.hashlen && |msg.W| == msg.length
    ensures out[..] == Serialized(s, msg)
  {
    var U := s.elementToBytes(msg.U);
    out := new Byte[8 + 1 + |U| + s.hashlen + msg.length](_ => 0);
    var writeptr := 0;
    Copy(out, writeptr, LittleEndian(msg.length, 8));
    writeptr := writeptr + 8;
    assert out[..writeptr] == LittleEndian(msg.length, 8);
    out[writeptr] := s.level;
    writeptr := writeptr + 1;
    assert out[..writeptr] == LittleEndian(msg.length, 8) + [s.level];
    Copy(out, writeptr, U);
    writeptr := writeptr + |U|;
    assert out[..writeptr] == LittleEndian(msg.length, 8) + [s.level] + U;
    Copy(out, writeptr, msg.V);
    writeptr := writeptr + s.hashlen;
    assert out[..writeptr] == LittleEndian(msg.length, 8) + [s.level] + U + msg.V;
    Copy(out, writeptr, msg.W);
    assert out[..] == Serialized(s, msg);
  }

  method MessageFromBytes(s: System, input: Bytes) returns (r: Option<Message>)
    requires LongEnough(s, input)
    ensures r == Parsed(s, input)
  {
    var length, ptr := FromLittleEndian(input[..8]), 8;
    var level := input[ptr];
    if level != s.level {
      return None;
    }
    ptr := ptr + 1;
    var U := s.elementFromBytes(input[ptr..ptr + s.elementLength]);
    ptr := ptr + s.elementLength;
    var V := input[ptr..ptr + s.hashlen];
    ptr := ptr + s.hashlen;
    var W := input[ptr..ptr + length];
    r := Some(Message(length, U, V, W));
  }

  lemma SerializedRoundTrip(s: System, msg: Message)
    requires Sized(s) && |msg.V| == s.hashlen && |msg.W| == msg.length < Pow(256, 8) && Encodable(s, msg.U)
    ensures LongEnough(s, Serialized(s, msg)) && Parsed(s, Serialized(s, msg)) == Some(msg)
  {
    var bs, n, U := Serialized(s, msg), LittleEndian(msg.length, 8), s.elementToBytes(msg.U);
    LittleEndianRoundTrip(msg.length, 8);
    assert bs[..8] == n;
    var v := 9 + s.elementLength;
    assert bs[9..v] == U && bs[v..v + s.hashlen] == msg.V;
    assert bs[v + s.hashlen..v + s.hashlen + msg.length] == msg.W;
  }

  // api.c

  method EncryptIbe(s: System, P_pub: G1, address: Bytes, message: Bytes, rho: Bytes)
    returns (ciphertext: array<Byte>)
    requires Sized(s) && |rho| == s.hashlen
    ensures ciphertext[..] == Sealed(s, P_pub, address, message, rho)
  {
    var key := s.hashToPoint(address);
    var msg := Encrypt(s, P_pub, key, message, rho);
    ciphertext := MessageToBytes(s, msg);
  }

  ghost function Sealed(s: System, P_pub: G1, address: Bytes, message: Bytes, rho: Bytes): Bytes
    requires Sized(s) && |rho| == s.hashlen
  {
    Serialized(s, Encrypted(s, P_pub, s.hashToPoint(address), message, rho))
  }

  /** None stands for NULL. The buffer is zeroed before decryption, and the verdict is dropped. */
  method DecryptIbe(s: System, key: G2, ciphertext: Bytes) returns (r: Option<Bytes>)
    requires Sized(s) && LongEnough(s, ciphertext)
    ensures r == Opened(s, key, ciphertext)
  {
    var msg := MessageFromBytes(s, ciphertext);
    if msg.None? {
      return None;
    }
    var bytes := Buffer(Zeros(msg.value.length));
    var _ := Decrypt(s, bytes, key, msg.value);
    r := Some(bytes[..]);
  }

  ghost function Opened(s: System, key: G2, ciphertext: Bytes): Option<Bytes>
    requires Sized(s) && LongEnough(s, ciphertext)
  {
    var msg := Parsed(s, ciphertext);
    if msg.None? then None else Some(Decrypted(s, key, msg.value, Zeros(msg.value.length)).0)
  }

  /** Nothing is returned exactly for another security level; what is returned has the stated length. */
  lemma OpenedFails(s: System, key: G2, ciphertext: Bytes)
    requires Sized(s) && LongEnough(s, ciphertext)
    ensures Opened(s, key, ciphertext).None? <==> ciphertext[8] != s.level
    ensures Opened(s, key, ciphertext).Some? ==> |Opened(s, key, ciphertext).value| == FromLittleEndian(ciphertext[..8])
  {
  }

  /** The key with which both sides agree on theta undoes the encryption and passes the check. */
  lemma DecryptInverts(s: System, P_pub: G1, point: G2, key: G2, m: Bytes, rho: Bytes)
    requires Sized(s) && |rho| == s.hashlen
    requires forall l: nat :: s.pair(s.mul1(s.P, l), key) == s.pow(s.pair(P_pub, point), l)
    ensures Decrypted(s, key, Encrypted(s, P_pub, point, m, rho), Zeros(|m|)) == (m, true)
  {
    var msg := Encrypted(s, P_pub, point, m, rho);
    var l := HashToRange(s, rho + s.hash(m));
    var z := s.hash(s.gtToBytes(s.pow(s.pair(P_pub, point), l)));
    assert s.pair(msg.U, key) == s.pow(s.pair(P_pub, point), l);
    XorCancels(z, rho);
    XorCancels(HashBytes(s, Zeros(|m|), rho), m);
  }

  /** What a ciphertext is made of: U is the multiple of P by the range hash of rho and the hashed
      message; V and W are rho and the message combined with the hash of theta and with the key
      stream of rho, so that a byte shows exactly where the mask is 0. */
  lemma CiphertextParts(s: System, P_pub: G1, key: G2, m: Bytes, rho: Bytes)
    requires Sized(s) && |rho| == s.hashlen
    ensures var msg := Encrypted(s, P_pub, key, m, rho);
            var l := HashToRange(s, rho + s.hash(m));
            var mask, stream := s.hash(s.gtToBytes(s.pow(s.pair(P_pub, key), l))), HashBytes(s, Zeros(|m|), rho);
            && msg.length == |msg.W| == |m| && |msg.V| == s.hashlen && msg.U == s.mul1(s.P, l)
            && (forall i, j :: 0 <= i < s.hashlen && 0 <= j < 8 ==>
                  Bit(msg.V[i], j) == if Bit(mask[i], j) != Bit(rho[i], j) then 1 else 0)
            && (forall i, j :: 0 <= i < |m| && 0 <= j < 8 ==>
                  Bit(msg.W[i], j) == if Bit(stream[i], j) != Bit(m[i], j) then 1 else 0)
            && (forall i :: 0 <= i < s.hashlen ==> (msg.V[i] == rho[i] <==> mask[i] == 0))
            && (forall i :: 0 <= i < |m| ==> (msg.W[i] == m[i] <==> stream[i] == 0))
  {
    var l := HashToRange(s, rho + s.hash(m));
    var mask, stream := s.hash(s.gtToBytes(s.pow(s.pair(P_pub, key), l))), HashBytes(s, Zeros(|m|), rho);
    CombinedBytes(mask, rho);
    CombinedBytes(stream, m);
  }

  lemma CombinedBytes(mask: Bytes, a: Bytes)
    requires |mask| == |a|
    ensures forall i, j :: 0 <= i < |a| && 0 <= j < 8 ==>
              Bit(XorAll(mask, a)[i], j) == if Bit(mask[i], j) != Bit(a[i], j) then 1 else 0
    ensures forall i :: 0 <= i < |a| ==> (XorAll(mask, a)[i] == a[i] <==> mask[i] == 0)
  {
    forall i, j | 0 <= i < |a| && 0 <= j < 8
      ensures Bit(XorAll(mask, a)[i], j) == if Bit(mask[i], j) != Bit(a[i], j) then 1 else 0
    {
      XorByBits(mask[i], a[i], j);
    }
    forall i | 0 <= i < |a| ensures XorAll(mask, a)[i] == a[i] <==> mask[i] == 0 {
      XorKeeps(mask[i], a[i]);
    }
  }

  /** With the matching key the check passes for exactly the ciphertexts that encryption can produce,
      and the output is then the message of the one rho. */
  lemma CheckIsExact(s: System, P_pub: G1, point: G2, key: G2, msg: Message)
    requires Sized(s) && |msg.V| == s.hashlen && |msg.W| == msg.length
    requires forall l: nat :: s.pair(s.mul1(s.P, l), key) == s.pow(s.pair(P_pub, point), l)
    ensures Decrypted(s, key, msg, Zeros(msg.length)).1 <==>
            exists m, rho :: |rho| == s.hashlen && Encrypted(s, P_pub, point, m, rho) == msg
    ensures forall m, rho :: |rho| == s.hashlen && Encrypted(s, P_pub, point, m, rho) == msg ==>
              Decrypted(s, key, msg, Zeros(msg.length)).0 == m
    ensures !Decrypted(s, key, msg, Zeros(msg.length)).1 ==>
              forall i :: 0 <= i < msg.length ==> Decrypted(s, key, msg, Zeros(msg.length)).0[i] == 0
  {
    var w := XorAll(s.hash(s.gtToBytes(s.pair(msg.U, key))), msg.V);
    var m := XorAll(HashBytes(s, Zeros(msg.length), w), msg.W);
    if Decrypted(s, key, msg, Zeros(msg.length)).1 {
      XorCancels(s.hash(s.gtToBytes(s.pair(msg.U, key))), msg.V);
      XorCancels(HashBytes(s, Zeros(msg.length), w), msg.W);
      assert Encrypted(s, P_pub, point, m, w) == msg;
    }
    forall m, rho | |rho| == s.hashlen && Encrypted(s, P_pub, point, m, rho) == msg
      ensures Decrypted(s, key, msg, Zeros(msg.length)) == (m, true)
    {
      DecryptInverts(s, P_pub, point, key, m, rho);
    }
  }

  lemma XorCancels(mask: Bytes, a: Bytes)
    requires |mask| == |a|
    ensures XorAll(mask, XorAll(mask, a)) == a
  {
    forall i | 0 <= i < |a| ensures XorAll(mask, XorAll(mask, a))[i] == a[i] {
      PowersOf256(1);
      PowFirst(256);
      XorBitsTwice(mask[i], a[i], 8);
    }
  }

  /** A key recovers rho exactly if it gives the mask that rho was combined with. */
  lemma OnlyTheMask(s: System, P_pub: G1, point: G2, key: G2, m: Bytes, rho: Bytes)
    requires Sized(s) && |rho| == s.hashlen
    ensures var msg := Encrypted(s, P_pub, point, m, rho);
            var l := HashToRange(s, rho + s.hash(m));
            XorAll(s.hash(s.gtToBytes(s.pair(msg.U, key))), msg.V) == rho <==>
            s.hash(s.gtToBytes(s.pair(s.mul1(s.P, l), key))) == s.hash(s.gtToBytes(s.pow(s.pair(P_pub, point), l)))
  {
    var msg := Encrypted(s, P_pub, point, m, rho);
    var l := HashToRange(s, rho + s.hash(m));
    var mask := s.hash(s.gtToBytes(s.pow(s.pair(P_pub, point), l)));
    var other := s.hash(s.gtToBytes(s.pair(s.mul1(s.P, l), key)));
    XorCancels(mask, rho);
    if XorAll(other, msg.V) == rho {
      MasksAgree(mask, other, msg.V);
    }
  }

  lemma MasksAgree(mask: Bytes, other: Bytes, c: Bytes)
    requires |mask| == |other| == |c| && XorAll(mask, c) == XorAll(other, c)
    ensures mask == other
  {
    forall i | 0 <= i < |mask| ensures mask[i] == other[i] {
      assert XorAll(mask, c)[i] == XorAll(other, c)[i];
      PowersOf256(1);
      PowFirst(256);
      XorBitsCancel(mask[i], other[i], c[i], 8);
    }
  }

  /** Whatever is sealed under the summed public shards is opened by the summed private keys. */
  lemma EndToEnd(s: System, secrets: seq<nat>, identity: Bytes, m: Bytes, rho: Bytes)
    requires Encodes(s) && Bilinear(s) && secrets != [] && |rho| == s.hashlen && |m| < Pow(256, 8)
    ensures SumPublic(s, Shards(s, secrets)).Some?
    ensures var params, key := SumPublic(s, Shards(s, secrets)).value, SumPrivate(s, secrets, identity);
            && LongEnough(s, Sealed(s, params.key, identity, m, rho))
            && Opened(s, key, Sealed(s, params.key, identity, m, rho)) == Some(m)
            && Decrypted(s, key, Encrypted(s, params.key, s.hashToPoint(identity), m, rho), Zeros(|m|)).1
  {
    SharedElement(s, secrets, identity, 0);
    var P_pub, key := SumPublic(s, Shards(s, secrets)).value.key, SumPrivate(s, secrets, identity);
    forall l: nat ensures s.pair(s.mul1(s.P, l), key) == s.pow(s.pair(P_pub, s.hashToPoint(identity)), l) {
      SharedElement(s, secrets, identity, l);
    }
    DecryptInverts(s, P_pub, s.hashToPoint(identity), key, m, rho);
    SerializedRoundTrip(s, Encrypted(s, P_pub, s.hashToPoint(identity), m, rho));
  }
}
