/** prism/common/crypto/modmath.py: Legendre symbol, Tonelli-Shanks square roots, extended
    Euclid, modular inverse and the Miller-Rabin test. */
module ModMath {
  import opened Modular
  import opened Primes
  import opened Polynomials
  import opened Wrappers

  function Pow2(k: nat): (r: nat)
    ensures r >= 1
  {
    if k == 0 then 1 else 2 * Pow2(k - 1)
  }

  lemma {:induction false} Pow2Add(j: nat, k: nat)
    ensures Pow2(j + k) == Pow2(j) * Pow2(k)
  {
    if j != 0 {
      Pow2Add(j - 1, k);
      assert Pow2(j + k) == 2 * (Pow2(j - 1) * Pow2(k));
    }
  }

  /** Each step of a squaring chain squares the previous element. */
  lemma ChainStep(b: int, e: nat, j: nat)
    ensures e * Pow2(j) >= 0 && e * Pow2(j + 1) >= 0
    ensures Pow(b, e * Pow2(j + 1)) == Pow(b, e * Pow2(j)) * Pow(b, e * Pow2(j))
  {
    var f := e * Pow2(j);
    assert e * Pow2(j + 1) == f + f;
    PowAdd(b, f, f);
  }

  // Quadratic residues

  ghost predicate IsRoot(y: int, a: int, p: int)
    requires p > 0
  {
    (y * y) % p == a % p
  }

  ghost predicate Residue(a: int, p: int)
    requires p > 0
  {
    a % p != 0 && exists y :: IsRoot(y, a, p)
  }

  function LegendreSymbol(a: int, p: int): int
    requires p >= 2
  {
    var ls := PowMod(a, (p - 1) / 2, p);
    if ls == p - 1 then -1 else ls
  }

  ghost function PowerMinusOne(n: nat): (c: Poly)
    ensures |c| == n + 1
  {
    if n == 0 then [0] else [-1] + seq(n - 1, i => 0) + [1]
  }

  lemma {:induction false} EvalZeros(n: nat, x: int)
    ensures Eval(seq(n, i => 0), x) == 0
  {
    if n != 0 {
      EvalZeros(n - 1, x);
      assert seq(n, i => 0)[1..] == seq(n - 1, i => 0);
    }
  }

  lemma EvalPowerMinusOne(n: nat, x: int)
    requires n > 0
    ensures Eval(PowerMinusOne(n), x) == Pow(x, n) - 1
  {
    var zeros: Poly := seq(n - 1, i => 0);
    EvalSnoc([-1] + zeros, 1, x);
    EvalZeros(n - 1, x);
    assert ([-1] + zeros)[1..] == zeros;
    assert x * 0 == 0;
  }

  /** X^n - 1 has at most n roots modulo a prime. */
  lemma SomeNonRoot(n: nat, xs: seq<int>, p: int) returns (i: nat)
    requires Prime(p) && n > 0 && |xs| == n + 1 && DistinctMod(xs, p)
    ensures i < |xs| && Pow(xs[i], n) % p != 1
  {
    if forall k :: 0 <= k < |xs| ==> Pow(xs[k], n) % p == 1 {
      var c := PowerMinusOne(n);
      SmallMod(1, p);
      forall k | 0 <= k < |xs| ensures Eval(c, xs[k]) % p == 0 {
        EvalPowerMinusOne(n, xs[k]);
        CongIsZeroDifference(Pow(xs[k], n), 1, p);
      }
      RootBound(c, xs, p, 0);
      EvalPowerMinusOne(n, 0);
      MinusOneMod(p);
      assert false;
    }
    i :| 0 <= i < |xs| && Pow(xs[i], n) % p != 1;
  }

  lemma HalfFermat(a: int, p: int)
    requires Prime(p) && p > 2 && a % p != 0
    ensures p % 2 == 1
    ensures PowMod(a, (p - 1) / 2, p) == 1 || PowMod(a, (p - 1) / 2, p) == p - 1
  {
    assert p % 2 != 0;
    var h := (p - 1) / 2;
    assert p - 1 == h + h;
    Fermat(a, p);
    PowAdd(a, h, h);
    SquareRootsOfOne(Pow(a, h), p);
  }

  lemma {:induction false} SquaresDiffer(i: int, j: int, p: int)
    requires Prime(p) && 0 < i < j <= (p - 1) / 2
    ensures (i * i) % p != (j * j) % p
  {
    if (i * i) % p == (j * j) % p {
      CongIsZeroDifference(j * j, i * i, p);
      assert j * j - i * i == (j - i) * (j + i);
      NoZeroDivisors(j - i, j + i, p);
      SmallMod(j - i, p);
      SmallMod(j + i, p);
    }
  }

  /** The symbol is 1 on the nonzero squares, 0 on the multiples of p and -1 elsewhere. */
  lemma EulerCriterion(a: int, p: int)
    requires Prime(p) && p > 2
    ensures LegendreSymbol(a, p) == if a % p == 0 then 0 else if Residue(a, p) then 1 else -1
  {
    var h := (p - 1) / 2;
    if a % p == 0 {
      assert Pow(a, h) == a * Pow(a, h - 1);
      CongMul(a, 0, Pow(a, h - 1), Pow(a, h - 1), p);
    } else {
      HalfFermat(a, p);
      if Residue(a, p) {
        var y :| IsRoot(y, a, p);
        if y % p == 0 {
          CongMul(y, 0, y, y, p);
        }
        CongPow(y * y, a, h, p);
        PowProduct(y, y, h);
        PowAdd(y, h, h);
        Fermat(y, p);
        assert h + h == p - 1;
      } else if PowMod(a, h, p) == 1 {
        var squares := seq(h, i => (i + 1) * (i + 1));
        var xs := squares + [a];
        forall i | 0 <= i < |xs| ensures Pow(xs[i], h) % p == 1 {
          if i < h {
            SmallMod(i + 1, p);
            PowProduct(i + 1, i + 1, h);
            PowAdd(i + 1, h, h);
            Fermat(i + 1, p);
            assert h + h == p - 1;
          }
        }
        forall i, j | 0 <= i < j < |xs| ensures xs[i] % p != xs[j] % p {
          if j < h {
            SquaresDiffer(i + 1, j + 1, p);
          } else {
            assert !IsRoot(i + 1, a, p);
          }
        }
        var i := SomeNonRoot(h, xs, p);
        assert false;
      }
    }
  }

  lemma NonResidueExists(p: int) returns (w: int)
    requires Prime(p) && p > 2
    ensures 2 <= w < p && LegendreSymbol(w, p) == -1
  {
    var h := (p - 1) / 2;
    assert p % 2 != 0;
    var xs := seq(h + 1, i => i + 1);
    forall i, j | 0 <= i < j < |xs| ensures xs[i] % p != xs[j] % p {
      SmallMod(xs[i], p);
      SmallMod(xs[j], p);
    }
    var i := SomeNonRoot(h, xs, p);
    w := xs[i];
    SmallMod(w, p);
    EulerCriterion(w, p);
    PowOne(h);
    SmallMod(1, p);
  }

  // Tonelli-Shanks

  /** x is a root of a up to the factor b, whose order divides 2^(r-1); g has order 2^r. */
  ghost predicate TonelliInvariant(a: int, p: int, x: int, b: int, g: int, r: nat)
    requires p > 0
  {
    && r >= 1
    && 0 <= x < p && 0 <= b < p && 0 <= g < p
    && (x * x) % p == (a * b) % p
    && Pow(g, Pow2(r - 1)) % p == p - 1
    && Pow(b, Pow2(r - 1)) % p == 1
  }

  lemma TonelliInit(a: int, n: int, p: int, s: nat, e: nat)
    requires Prime(p) && s % 2 == 1 && e >= 1 && p - 1 == s * Pow2(e)
    requires LegendreSymbol(a, p) == 1 && LegendreSymbol(n, p) == -1
    ensures TonelliInvariant(a, p, PowMod(a, (s + 1) / 2, p), PowMod(a, s, p), PowMod(n, s, p), e)
  {
    var k := (s + 1) / 2;
    var x, b, g := PowMod(a, k, p), PowMod(a, s, p), PowMod(n, s, p);
    PowAdd(a, k, k);
    assert k + k == s + 1 && Pow(a, s + 1) == a * Pow(a, s);
    ModMod(Pow(a, k), p);
    ModMod(Pow(a, s), p);
    ModMod(Pow(n, s), p);
    CongMul(x, Pow(a, k), x, Pow(a, k), p);
    CongMul(a, a, b, Pow(a, s), p);
    var h := Pow2(e - 1);
    assert s * h == (p - 1) / 2 by {
      assert s * Pow2(e) == 2 * (s * h);
    }
    PowMul(a, s, h);
    PowMul(n, s, h);
    CongPow(b, Pow(a, s), h, p);
    CongPow(g, Pow(n, s), h, p);
  }

  /** Raising to 2^j and then to 2^k is raising to 2^(j+k). */
  lemma PowChain(g: int, j: nat, k: nat)
    ensures Pow(Pow(g, Pow2(j)), Pow2(k)) == Pow(g, Pow2(j + k))
  {
    PowMul(g, Pow2(j), Pow2(k));
    Pow2Add(j, k);
  }

  lemma NewG(g: int, r: nat, m: nat, p: int, gs: int, g': int)
    requires p > 0 && 0 < m < r
    requires gs == PowMod(g, Pow2(r - m - 1), p) && g' == (gs * gs) % p
    ensures Pow(g', Pow2(m - 1)) % p == Pow(g, Pow2(r - 1)) % p
  {
    var h, y := Pow2(m - 1), Pow(g, Pow2(r - m - 1));
    ModMod(gs * gs, p);
    CongPow(g', gs * gs, h, p);
    PowProduct(gs, gs, h);
    PowAdd(gs, h, h);
    ModMod(y, p);
    CongPow(gs, y, Pow2(m), p);
    PowChain(g, r - m - 1, m);
  }

  lemma NewB(b: int, g': int, m: nat, p: int)
    requires Prime(p) && m > 0
    requires Pow(b, Pow2(m)) % p == 1 && Pow(b, Pow2(m - 1)) % p != 1
    requires Pow(g', Pow2(m - 1)) % p == p - 1
    ensures Pow((b * g') % p, Pow2(m - 1)) % p == 1
  {
    var h := Pow2(m - 1);
    var u := Pow(b, h);
    PowAdd(b, h, h);
    SquareRootsOfOne(u, p);
    ModMod(b * g', p);
    CongPow((b * g') % p, b * g', h, p);
    PowProduct(b, g', h);
    MinusOneMod(p);
    CongMul(u, -1, Pow(g', h), -1, p);
  }

  lemma NewX(a: int, x: int, b: int, gs: int, g': int, p: int)
    requires p > 0 && (x * x) % p == (a * b) % p && g' == (gs * gs) % p
    ensures (((x * gs) % p) * ((x * gs) % p)) % p == (a * ((b * g') % p)) % p
  {
    var x', b' := (x * gs) % p, (b * g') % p;
    ModMod(x * gs, p);
    ModMod(gs * gs, p);
    ModMod(b * g', p);
    CongMul(x', x * gs, x', x * gs, p);
    MulSwap(x, gs, x, gs);
    CongMul(x * x, a * b, gs * gs, g', p);
    CongMul(a, a, b', b * g', p);
    assert (a * b) * g' == a * (b * g');
  }

  lemma TonelliStep(a: int, p: int, x: int, b: int, g: int, r: nat, m: nat)
    requires Prime(p) && TonelliInvariant(a, p, x, b, g, r)
    requires 0 < m < r
    requires Pow(b, Pow2(m)) % p == 1 && Pow(b, Pow2(m - 1)) % p != 1
    ensures
      var gs := PowMod(g, Pow2(r - m - 1), p);
      var g' := (gs * gs) % p;
      TonelliInvariant(a, p, (x * gs) % p, (b * g') % p, g', m)
  {
    var gs := PowMod(g, Pow2(r - m - 1), p);
    var g' := (gs * gs) % p;
    NewG(g, r, m, p, gs, g');
    NewB(b, g', m, p);
    NewX(a, x, b, gs, g', p);
  }

  /** For p = 3 mod 4 the root is a power. */
  lemma ThreeModFour(a: int, p: int)
    requires Prime(p) && p % 4 == 3 && LegendreSymbol(a, p) == 1
    ensures IsRoot(PowMod(a, (p + 1) / 4, p), a, p)
  {
    var k, h := (p + 1) / 4, (p - 1) / 2;
    var x, y := PowMod(a, k, p), Pow(a, k);
    ModMod(y, p);
    CongMul(x, y, x, y, p);
    PowAdd(a, k, k);
    assert k + k == h + 1;
    assert y * y == a * Pow(a, h);
    SmallMod(1, p);
    CongMul(a, a, Pow(a, h), 1, p);
  }

  lemma RootOfZero(p: int)
    requires p > 0
    ensures !Residue(0, p)
  {
    SmallMod(0, p);
  }

  method ModSqrt(a: int, p: int) returns (root: int)
    requires Prime(p)
    ensures 0 <= root < p
    ensures p > 2 && Residue(a, p) ==> IsRoot(root, a, p)
    ensures p == 2 || !Residue(a, p) ==> root == 0
  {
    if p > 2 {
      EulerCriterion(a, p);
    } else {
      assert Pow(a, 0) == 1;
    }
    RootOfZero(p);
    if LegendreSymbol(a, p) != 1 || a == 0 || p == 2 {
      root := 0;
    } else if p % 4 == 3 {
      ThreeModFour(a, p);
      root := PowMod(a, (p + 1) / 4, p);
    } else {
      assert p % 2 != 0;
      var s, e := PartitionTwos(p);
      var n := FindNonResidue(p);
      TonelliInit(a, n, p, s, e);
      root := TonelliLoop(a, p, PowMod(a, (s + 1) / 2, p), PowMod(a, s, p), PowMod(n, s, p), e);
    }
  }

  /** p - 1 as an odd number times a power of two. */
  method PartitionTwos(p: int) returns (s: nat, e: nat)
    requires p > 1 && p % 2 == 1
    ensures s % 2 == 1 && e >= 1 && p - 1 == s * Pow2(e)
  {
    s, e := p - 1, 0;
    while s % 2 == 0
      invariant s > 0 && p - 1 == s * Pow2(e)
      decreases s
    {
      assert (s / 2) * Pow2(e + 1) == s * Pow2(e);
      s, e := s / 2, e + 1;
    }
  }

  /** The search ends because the symbol is -1 somewhere below p. */
  method FindNonResidue(p: int) returns (n: int)
    requires Prime(p) && p > 2
    ensures LegendreSymbol(n, p) == -1
  {
    ghost var w := NonResidueExists(p);
    n := 2;
    while LegendreSymbol(n, p) != -1
      invariant n <= w
      decreases w - n
    {
      n := n + 1;
    }
  }

  method TonelliLoop(a: int, p: int, x0: int, b0: int, g0: int, e: nat) returns (x: int)
    requires Prime(p) && TonelliInvariant(a, p, x0, b0, g0, e)
    ensures 0 <= x < p && IsRoot(x, a, p)
  {
    x := x0;
    var b, g, r := b0, g0, e;
    while true
      invariant TonelliInvariant(a, p, x, b, g, r)
      decreases r
    {
      var m := LeastOrder(b, r, p);
      if m == 0 {
        PowFirst(b);
        SmallMod(b, p);
        return x;
      }
      TonelliStep(a, p, x, b, g, r, m);
      var gs := PowMod(g, Pow2(r - m - 1), p);
      g := (gs * gs) % p;
      x := (x * gs) % p;
      b := (b * g) % p;
      r := m;
    }
  }

  /** The inner loop of Tonelli-Shanks: the least m with b^(2^m) = 1. */
  method LeastOrder(b: int, r: nat, p: int) returns (m: nat)
    requires p > 1 && 0 <= b < p && r >= 1
    requires Pow(b, Pow2(r - 1)) % p == 1
    ensures m < r && Pow(b, Pow2(m)) % p == 1
    ensures forall j :: 0 <= j < m ==> Pow(b, Pow2(j)) % p != 1
  {
    var t := b;
    m := 0;
    PowFirst(b);
    SmallMod(b, p);
    for i := 0 to r
      invariant t == Pow(b, Pow2(i)) % p
      invariant forall j :: 0 <= j < i ==> Pow(b, Pow2(j)) % p != 1
    {
      m := i;
      if t == 1 {
        break;
      }
      PowTwo(t);
      ChainStep(b, 1, i);
      ModMod(Pow(b, Pow2(i)), p);
      CongMul(t, Pow(b, Pow2(i)), t, Pow(b, Pow2(i)), p);
      t := PowMod(t, 2, p);
    }
  }

  // Extended Euclid, with Python's floor division

  function FloorDiv(a: int, b: int): int
    requires b != 0
  {
    if b > 0 || a % b == 0 then a / b else a / b - 1
  }

  function FloorMod(a: int, b: int): (r: int)
    requires b != 0
    ensures a == FloorDiv(a, b) * b + r
    ensures if b > 0 then 0 <= r < b else b < r <= 0
  {
    if b > 0 || a % b == 0 then a % b else a % b + b
  }

  method Xgcd(a0: int, b0: int) returns (g: int, x: int, y: int)
    ensures g == a0 * x + b0 * y
    ensures exists u, v :: CommonDivisor(g, u, v, a0, b0)
    ensures b0 > 0 ==> g > 0
  {
    var a, b := a0, b0;
    var prevx, prevy := 1, 0;
    x, y := 0, 1;
    ghost var u, v, u', v' := 1, 0, 0, 1;
    while b != 0
      invariant a == a0 * prevx + b0 * prevy && b == a0 * x + b0 * y
      invariant a0 == a * u + b * v && b0 == a * u' + b * v'
      invariant b0 > 0 ==> b >= 0 && (b == 0 ==> a > 0)
      decreases if b < 0 then -b else b
    {
      var q, r := FloorDiv(a, b), FloorMod(a, b);
      EuclidStep(a0, b0, a, b, q, prevx, prevy, x, y);
      EuclidBack(a, b, r, q, u, v);
      EuclidBack(a, b, r, q, u', v');
      u, v, u', v' := q * u + v, u, q * u' + v', u';
      x, prevx := prevx - q * x, x;
      y, prevy := prevy - q * y, y;
      a, b := b, r;
    }
    assert CommonDivisor(a, u, u', a0, b0);
    g, x, y := a, prevx, prevy;
  }

  lemma EuclidStep(a0: int, b0: int, a: int, b: int, q: int, prevx: int, prevy: int, x: int, y: int)
    requires a == a0 * prevx + b0 * prevy && b == a0 * x + b0 * y
    ensures a - q * b == a0 * (prevx - q * x) + b0 * (prevy - q * y)
  {
    assert q * (a0 * x + b0 * y) == a0 * (q * x) + b0 * (q * y) by {
      assert q * (a0 * x) == a0 * (q * x);
      assert q * (b0 * y) == b0 * (q * y);
    }
    assert a0 * (prevx - q * x) == a0 * prevx - a0 * (q * x);
    assert b0 * (prevy - q * y) == b0 * prevy - b0 * (q * y);
  }

  lemma EuclidBack(a: int, b: int, r: int, q: int, u: int, v: int)
    requires a == q * b + r
    ensures a * u + b * v == b * (q * u + v) + r * u
  {
    assert (q * b) * u == b * (q * u);
    assert a * u == (q * b) * u + r * u;
    assert b * (q * u + v) == b * (q * u) + b * v;
  }

  ghost predicate CommonDivisor(g: int, u: int, v: int, a: int, b: int) {
    a == g * u && b == g * v
  }

  ghost predicate IsInverse(w: int, a: int, m: int)
    requires m > 0
  {
    0 <= w < m && (a * w) % m == 1 % m
  }

  /** The inverse of a modulo m, when there is one. */
  ghost function Inverse(a: int, m: int): (r: Option<int>)
    requires m > 0
    ensures r.Some? ==> IsInverse(r.value, a, m)
    ensures r.None? ==> forall w :: !IsInverse(w, a, m)
  {
    if w :| IsInverse(w, a, m) then Some(w) else None
  }

  lemma InverseIs(w: int, a: int, m: int)
    requires m > 0 && IsInverse(w, a, m)
    ensures Inverse(a, m) == Some(w)
  {
    var v := Inverse(a, m).value;
    InverseUnique(a, w, v, m);
    SmallMod(w, m);
    SmallMod(v, m);
  }

  /** An inverse exists only if the greatest common divisor is 1. */
  lemma InverseNeedsCoprime(w: int, a: int, m: int, g: int, u: int, v: int)
    requires m > 0 && g > 0 && CommonDivisor(g, u, v, a, m) && IsInverse(w, a, m)
    ensures g == 1
  {
    var k := CongElim(a * w, 1, m);
    assert (g * u) * w == g * (u * w) && k * (g * v) == g * (k * v);
    assert 1 == g * (u * w - k * v) by {
      assert g * (u * w - k * v) == g * (u * w) - g * (k * v);
    }
    MulAtLeast(u * w - k * v, g);
  }

  /** None stands for NoModularInverseError. */
  method ModInv(a: int, m: int) returns (r: Option<int>)
    requires m > 0
    ensures r == Inverse(a, m)
  {
    var g, x, y := Xgcd(a, m);
    if g != 1 {
      ghost var inv := Inverse(a, m);
      if inv.Some? {
        ghost var u, v :| CommonDivisor(g, u, v, a, m);
        InverseNeedsCoprime(inv.value, a, m, g, u, v);
      }
      return None;
    } else {
      assert a * x == 1 + (-y) * m;
      CongIntro(a * x, 1, -y, m);
      ModMod(x, m);
      CongMul(a, a, x % m, x, m);
      InverseIs(x % m, a, m);
      return Some(x % m);
    }
  }

  // Miller-Rabin

  function OddPart(n: nat): (r: nat)
    requires n > 0
    ensures r % 2 == 1
  {
    if n % 2 == 0 then OddPart(n / 2) else n
  }

  lemma DoublePower(r: nat, s: nat)
    ensures r * Pow2(1 + s) == 2 * (r * Pow2(s))
  {
  }

  function TwoExponent(n: nat): (s: nat)
    requires n > 0
    ensures n == OddPart(n) * Pow2(s)
  {
    if n % 2 == 0 then
      var s := TwoExponent(n / 2);
      DoublePower(OddPart(n / 2), s);
      1 + s
    else 0
  }

  /** The element a^(r * 2^j) of the squaring chain of base a. */
  ghost function Chain(n: int, a: int, j: nat): int
    requires n > 1
  {
    var e: nat := OddPart(n - 1);
    assert e * Pow2(j) >= 0;
    Pow(a, e * Pow2(j)) % n
  }

  /** n passes the strong test for base a. */
  ghost predicate StrongProbablePrime(n: int, a: int)
    requires n > 1
  {
    Chain(n, a, 0) == 1 || exists j :: 0 <= j < TwoExponent(n - 1) && Chain(n, a, j) == n - 1
  }

  lemma ChainSquares(n: int, a: int, j: nat)
    requires n > 1
    ensures Chain(n, a, j + 1) == PowMod(Chain(n, a, j), 2, n)
  {
    var e: nat := OddPart(n - 1);
    ChainStep(a, e, j);
    var c := Pow(a, e * Pow2(j));
    PowTwo(c % n);
    ModMod(c, n);
    CongMul(c % n, c, c % n, c, n);
  }

  lemma {:induction false} OneStaysOne(n: int, a: int, i: nat, j: nat)
    requires n > 1 && i <= j && Chain(n, a, i) == 1
    ensures Chain(n, a, j) == 1
    decreases j - i
  {
    if i < j {
      ChainSquares(n, a, i);
      PowOne(2);
      SmallMod(1, n);
      OneStaysOne(n, a, i + 1, j);
    }
  }

  /** Walking down from an element that is 1 meets n - 1 unless everything below is 1. */
  lemma {:induction false} ChainDescent(n: int, a: int, j: nat)
    requires Prime(n) && Chain(n, a, j) == 1
    ensures Chain(n, a, 0) == 1 || exists i :: 0 <= i < j && Chain(n, a, i) == n - 1
  {
    if j > 0 {
      var c := Chain(n, a, j - 1);
      ChainSquares(n, a, j - 1);
      PowTwo(c);
      SquareRootsOfOne(c, n);
      SmallMod(c, n);
      if c == 1 {
        ChainDescent(n, a, j - 1);
      }
    }
  }

  lemma TwiceNotOdd(n: nat, r: nat, s: nat)
    requires s > 0 && n == r * Pow2(s)
    ensures n % 2 == 0 && n / 2 == r * Pow2(s - 1)
  {
    assert n == 2 * (r * Pow2(s - 1));
  }

  /** There is only one way to write a number as an odd part times a power of two. */
  lemma {:induction false} OddPartUnique(n: nat, r: nat, s: nat)
    requires n > 0 && r % 2 == 1 && n == r * Pow2(s)
    ensures r == OddPart(n) && s == TwoExponent(n)
    decreases s
  {
    if s == 0 {
      assert n == r;
    } else {
      TwiceNotOdd(n, r, s);
      OddPartUnique(n / 2, r, s - 1);
    }
  }

  /** Passing means that the chain ends at 1 and meets no other square root of 1 on the way. */
  lemma PassingChain(n: int, a: int)
    requires n > 3
    ensures StrongProbablePrime(n, a) <==>
            Chain(n, a, TwoExponent(n - 1)) == 1 &&
            forall j :: 0 <= j < TwoExponent(n - 1) && Chain(n, a, j + 1) == 1 ==> Chain(n, a, j) == 1 || Chain(n, a, j) == n - 1
  {
    var s := TwoExponent(n - 1);
    if Chain(n, a, 0) == 1 {
      forall j: nat ensures Chain(n, a, j) == 1 {
        OneStaysOne(n, a, 0, j);
      }
    } else if i :| 0 <= i < s && Chain(n, a, i) == n - 1 {
      AfterMinusOne(n, a, i);
      forall j: nat | j < s && Chain(n, a, j + 1) == 1 ensures Chain(n, a, j) == 1 || Chain(n, a, j) == n - 1 {
        if j < i {
          OneStaysOne(n, a, j + 1, i);
        }
      }
    } else if Chain(n, a, s) == 1 {
      FirstOne(n, a, s);
    }
  }

  lemma SquareOfMinusOne(n: int)
    requires n > 1
    ensures PowMod(n - 1, 2, n) == 1
  {
    PowTwo(n - 1);
    assert (n - 1) * (n - 1) == 1 + (n - 2) * n;
    CongIntro((n - 1) * (n - 1), 1, n - 2, n);
    SmallMod(1, n);
  }

  lemma AfterMinusOne(n: int, a: int, i: nat)
    requires n > 3 && Chain(n, a, i) == n - 1
    ensures forall j: nat :: j > i ==> Chain(n, a, j) == 1
  {
    ChainSquares(n, a, i);
    SquareOfMinusOne(n);
    forall j: nat | j > i ensures Chain(n, a, j) == 1 {
      OneStaysOne(n, a, i + 1, j);
    }
  }

  /** Some element of the chain is the first that is 1. */
  lemma {:induction false} FirstOne(n: int, a: int, k: nat)
    requires n > 3 && Chain(n, a, k) == 1 && Chain(n, a, 0) != 1
    ensures exists j :: 0 <= j < k && Chain(n, a, j + 1) == 1 && Chain(n, a, j) != 1
  {
    if Chain(n, a, k - 1) == 1 {
      FirstOne(n, a, k - 1);
    } else {
      assert Chain(n, a, (k - 1) + 1) == 1;
    }
  }

  /** a to the r * 2^j, modulo n. */
  ghost function SquaredTimes(n: int, a: int, r: nat, j: nat): int
    requires n > 1
  {
    assert r * Pow2(j) >= 0;
    Pow(a, r * Pow2(j)) % n
  }

  /** The strong test in terms of powers: for n - 1 = r * 2^s with r odd, a base passes exactly if
      a^(n-1) is 1 and no repeated squaring of a^r reaches 1 from anything but 1 and n - 1. */
  lemma StrongTestMeans(n: int, a: int, r: nat, s: nat)
    requires n > 3 && r % 2 == 1 && n - 1 == r * Pow2(s)
    ensures StrongProbablePrime(n, a) <==>
            Pow(a, n - 1) % n == 1 &&
            !exists j :: 0 <= j < s && SquaredTimes(n, a, r, j + 1) == 1 &&
                         SquaredTimes(n, a, r, j) != 1 && SquaredTimes(n, a, r, j) != n - 1
    ensures StrongProbablePrime(n, a) <==>
            SquaredTimes(n, a, r, 0) == 1 || exists j :: 0 <= j < s && SquaredTimes(n, a, r, j) == n - 1
  {
    OddPartUnique(n - 1, r, s);
    PassingChain(n, a);
    assert Chain(n, a, s) == Pow(a, n - 1) % n;
    forall j: nat ensures Chain(n, a, j) == SquaredTimes(n, a, r, j) {
    }
  }

  lemma RepeatedTenth(a: int, k: nat, n: int)
    requires n > 1 && Pow(a, 10) % n == 1
    ensures Pow(a, 10 * k) % n == 1
  {
    SmallMod(1, n);
    PowMul(a, 10, k);
    CongPow(Pow(a, 10), 1, k, n);
    PowOne(k);
  }

  lemma TenthPower(a: int, n: int)
    requires n == 341 && a == 2
    ensures Pow(a, 5) == 32 && Pow(a, 10) % n == 1
  {
    assert Pow(a, 2) == 4 && Pow(a, 3) == 8 && Pow(a, 4) == 16;
    PowAdd(a, 5, 5);
  }

  lemma EightyFifthPower(a: int, n: int)
    requires n > 32 && Pow(a, 5) == 32 && Pow(a, 80) % n == 1
    ensures Pow(a, 85) % n == 32
  {
    PowAdd(a, 80, 5);
    SmallMod(1, n);
    SmallMod(32, n);
    CongMul(Pow(a, 80), 1, 32, 32, n);
  }

  lemma PowersMod341(a: int, n: int)
    requires n == 341 && a == 2
    ensures Pow(a, 85) % n == 32 && Pow(a, 170) % n == 1 && Pow(a, n - 1) % n == 1
  {
    TenthPower(a, n);
    RepeatedTenth(a, 8, n);
    RepeatedTenth(a, 17, n);
    RepeatedTenth(a, 34, n);
    EightyFifthPower(a, n);
  }

  lemma RejectedAtSecond(n: int, a: int, r: nat)
    requires n > 3 && r % 2 == 1 && n - 1 == r * 4
    requires Pow(a, r * 2) % n == 1 && Pow(a, r) % n != 1 && Pow(a, r) % n != n - 1
    ensures !StrongProbablePrime(n, a)
  {
    assert Pow2(0) == 1 && Pow2(1) == 2 && Pow2(2) == 4;
    var j := 0;
    assert SquaredTimes(n, a, r, j) == Pow(a, r) % n && SquaredTimes(n, a, r, j + 1) == 1;
    StrongTestMeans(n, a, r, 2);
  }

  /** The composite 341 = 11 * 31 has 2^340 = 1, but is rejected with base 2: 32 squares to 1. */
  lemma PseudoprimeRejected(n: int, a: int)
    requires n == 341 && a == 2
    ensures n % 11 == 0 && Pow(a, n - 1) % n == 1
    ensures !Accepted(n, [a])
  {
    PowersMod341(a, n);
    RejectedAtSecond(n, a, 85);
    assert [a][0] == a;
  }

  lemma PrimesPass(n: int, a: int)
    requires Prime(n) && a % n != 0
    ensures StrongProbablePrime(n, a)
  {
    Fermat(a, n);
    ChainDescent(n, a, TwoExponent(n - 1));
  }

  /** A base that shares a factor with n never passes. */
  lemma SharedFactorFails(n: int, a: int, d: int)
    requires 1 < d && n > 1 && n % d == 0 && a % d == 0
    ensures !StrongProbablePrime(n, a)
  {
    forall j: nat ensures Chain(n, a, j) != 1 && Chain(n, a, j) != n - 1 {
      var r: nat := OddPart(n - 1);
      var e := r * Pow2(j);
      assert e >= 1 by {
        MulAtLeast(r, Pow2(j));
      }
      PowKeepsFactor(a, e, d);
      RemainderKeepsFactor(Pow(a, e), n, d);
      MinusOneMod(d);
      CongSub(n, 0, 1, 1, d);
    }
  }

  lemma PowKeepsFactor(a: int, e: nat, d: int)
    requires d > 1 && a % d == 0 && e > 0
    ensures Pow(a, e) % d == 0
  {
    CongMul(a, 0, Pow(a, e - 1), Pow(a, e - 1), d);
  }

  lemma RemainderKeepsFactor(c: int, n: int, d: int)
    requires n > 0 && d > 0 && n % d == 0 && c % d == 0
    ensures (c % n) % d == 0
  {
    var q, r := c / n, c % n;
    assert r == c - n * q;
    CongMul(n, 0, q, q, d);
    CongSub(c, 0, n * q, 0, d);
  }

  /** Over all bases that can be drawn, the strong test is exact. */
  lemma StrongTestIsExact(n: int)
    requires n > 3 && n % 2 == 1
    ensures Prime(n) <==> forall a :: 2 <= a <= n - 2 ==> StrongProbablePrime(n, a)
  {
    if Prime(n) {
      forall a | 2 <= a <= n - 2 ensures StrongProbablePrime(n, a) {
        SmallMod(a, n);
        PrimesPass(n, a);
      }
    } else {
      var d :| 2 <= d < n && n % d == 0;
      var k := Divides(n, d);
      if d == n - 1 {
        CongSub(n, 0, n - 1, 0, d);
        SmallMod(1, d);
        assert false;
      }
      MultipleIsZero(1, d);
      SharedFactorFails(n, d, d);
    }
  }

  /** n is 2 or 3, or odd and passes the strong test for every drawn base. */
  ghost predicate Accepted(n: int, bases: seq<int>) {
    n == 2 || n == 3 ||
    (n > 3 && n % 2 == 1 && forall i :: 0 <= i < |bases| ==> StrongProbablePrime(n, bases[i]))
  }

  ghost predicate Drawable(n: int, bases: seq<int>) {
    forall i :: 0 <= i < |bases| ==> 2 <= bases[i] <= n - 2
  }

  /** A prime is never rejected; drawing every base leaves only primes. */
  lemma AcceptedPrimes(n: int, bases: seq<int>)
    requires n > 3 ==> Drawable(n, bases)
    ensures Prime(n) ==> Accepted(n, bases)
    ensures Accepted(n, bases) && (forall a :: 2 <= a <= n - 2 ==> a in bases) ==> Prime(n)
  {
    if n > 3 && n % 2 == 1 {
      StrongTestIsExact(n);
      if Accepted(n, bases) && forall a :: 2 <= a <= n - 2 ==> a in bases {
        forall a | 2 <= a <= n - 2 ensures StrongProbablePrime(n, a) {
          assert a in bases;
        }
      }
    } else {
      assert 3 % 2 == 1;
    }
  }

  /** The loop of k tests, one drawn base at a time. */
  method IsPrime(n: int, bases: seq<int>) returns (b: bool)
    requires n > 3 ==> Drawable(n, bases)
    ensures b <==> Accepted(n, bases)
  {
    if n == 2 || n == 3 {
      return true;
    }
    if n <= 1 || n % 2 == 0 {
      return false;
    }
    var s: nat, r: nat := 0, n - 1;
    while r % 2 == 0
      invariant r > 0 && OddPart(r) == OddPart(n - 1) && s + TwoExponent(r) == TwoExponent(n - 1)
      decreases r
    {
      s, r := s + 1, r / 2;
    }
    for i := 0 to |bases|
      invariant forall k :: 0 <= k < i ==> StrongProbablePrime(n, bases[k])
    {
      var pass := TestBase(n, bases[i], s, r);
      if !pass {
        return false;
      }
    }
    return true;
  }

  /** The body of the loop of k tests. */
  method TestBase(n: int, a: int, s: nat, r: nat) returns (pass: bool)
    requires n > 3 && n % 2 == 1 && r == OddPart(n - 1) && s == TwoExponent(n - 1)
    ensures pass <==> StrongProbablePrime(n, a)
  {
    var x := PowMod(a, r, n);
    assert x == Chain(n, a, 0) by { assert r * Pow2(0) == r; }
    if x != 1 && x != n - 1 {
      var j := 1;
      while j < s && x != n - 1
        invariant 1 <= j && (s >= 1 ==> j <= s)
        invariant x == Chain(n, a, j - 1)
        invariant forall i :: 0 <= i < j - 1 ==> Chain(n, a, i) != n - 1
      {
        ChainSquares(n, a, j - 1);
        x := PowMod(x, 2, n);
        if x == 1 {
          forall i | j <= i ensures Chain(n, a, i) != n - 1 {
            OneStaysOne(n, a, j, i);
          }
          return false;
        }
        j := j + 1;
      }
      if x != n - 1 {
        return false;
      }
      assert s >= 1 by { assert OddPart(n - 1) * Pow2(0) == OddPart(n - 1); }
    } else if x == n - 1 {
      assert s >= 1 by { assert OddPart(n - 1) * Pow2(0) == OddPart(n - 1); }
    }
    return true;
  }

  // Commitment parameters

  /** What get_commitment_parameters returns once both primality tests were right: a square
      modulo p = 2q + 1, whose q-th power is therefore 1. */
  lemma CommitmentGenerator(q: int, b: int)
    requires Prime(q) && Prime(2 * q + 1) && 1 <= b <= 2 * q
    ensures PowMod(PowMod(b, 2, 2 * q + 1), q, 2 * q + 1) == 1
  {
    var p := 2 * q + 1;
    var g := PowMod(b, 2, p);
    ModMod(Pow(b, 2), p);
    CongPow(g, Pow(b, 2), q, p);
    PowMul(b, 2, q);
    SmallMod(b, p);
    Fermat(b, p);
  }
}
