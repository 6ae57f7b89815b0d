/** Integer powers and congruences. A congruence is written out as `a % m == b % m`, so that
    chaining congruences is chaining equalities. For a positive modulus Dafny's `%` and
    Python's `%` agree. */
module Modular {

  function Pow(b: int, e: nat): int {
    if e == 0 then 1 else b * Pow(b, e - 1)
  }

  /** Python's three-argument `pow` for a non-negative exponent. */
  function PowMod(b: int, e: nat, m: int): (r: int)
    requires m > 0
    ensures 0 <= r < m
  {
    Pow(b, e) % m
  }

  lemma MulAtLeast(t: int, m: int)
    requires m > 0
    ensures t >= 1 ==> t * m >= m
    ensures t <= -1 ==> t * m <= -m
  {
    if t >= 1 {
      assert (t - 1) * m >= 0;
    } else if t <= -1 {
      assert (-t - 1) * m >= 0;
    }
  }

  lemma MulMonotone(a: nat, b: nat, h: nat)
    requires a <= b
    ensures a * h <= b * h
  {
    assert (b - a) * h == b * h - a * h;
  }

  lemma DivModUnique(x: int, q: int, r: int, m: int)
    requires m > 0 && 0 <= r < m && x == q * m + r
    ensures x / m == q && x % m == r
  {
    var q', r' := x / m, x % m;
    var t := q - q';
    assert t * m == r' - r by {
      assert x == q' * m + r';
      assert t * m == q * m - q' * m;
    }
    MulAtLeast(t, m);
  }

  lemma CongIntro(a: int, b: int, k: int, m: int)
    requires m > 0 && a == b + k * m
    ensures a % m == b % m
  {
    var q, r := b / m, b % m;
    assert a == (q + k) * m + r;
    DivModUnique(a, q + k, r, m);
  }

  lemma CongElim(a: int, b: int, m: int) returns (k: int)
    requires m > 0 && a % m == b % m
    ensures a == b + k * m
  {
    k := a / m - b / m;
    assert a == (a / m) * m + a % m;
    assert b == (b / m) * m + b % m;
  }

  lemma Divides(a: int, m: int) returns (k: int)
    requires m > 0 && a % m == 0
    ensures a == k * m
  {
    k := a / m;
  }

  lemma MultipleIsZero(k: int, m: int)
    requires m > 0
    ensures (k * m) % m == 0
  {
    CongIntro(k * m, 0, k, m);
  }

  lemma SmallMod(x: int, m: int)
    requires 0 <= x < m
    ensures x % m == x
  {
    DivModUnique(x, 0, x, m);
  }

  lemma ModMod(x: int, m: int)
    requires m > 0
    ensures (x % m) % m == x % m
  {
    SmallMod(x % m, m);
  }

  lemma CongAdd(a: int, b: int, c: int, d: int, m: int)
    requires m > 0 && a % m == b % m && c % m == d % m
    ensures (a + c) % m == (b + d) % m
  {
    var k := CongElim(a, b, m);
    var l := CongElim(c, d, m);
    assert a + c == b + d + (k + l) * m;
    CongIntro(a + c, b + d, k + l, m);
  }

  lemma CongSub(a: int, b: int, c: int, d: int, m: int)
    requires m > 0 && a % m == b % m && c % m == d % m
    ensures (a - c) % m == (b - d) % m
  {
    var k := CongElim(a, b, m);
    var l := CongElim(c, d, m);
    assert a - c == b - d + (k - l) * m;
    CongIntro(a - c, b - d, k - l, m);
  }

  lemma CongMul(a: int, b: int, c: int, d: int, m: int)
    requires m > 0 && a % m == b % m && c % m == d % m
    ensures (a * c) % m == (b * d) % m
  {
    var k := CongElim(a, b, m);
    var l := CongElim(c, d, m);
    var t := b * l + k * c;
    assert a * c == b * c + k * m * c;
    assert b * c == b * d + b * (l * m);
    assert b * (l * m) == (b * l) * m && k * m * c == (k * c) * m;
    assert t * m == (b * l) * m + (k * c) * m;
    CongIntro(a * c, b * d, t, m);
  }

  lemma {:induction false} CongPow(a: int, b: int, e: nat, m: int)
    requires m > 0 && a % m == b % m
    ensures Pow(a, e) % m == Pow(b, e) % m
  {
    if e != 0 {
      CongPow(a, b, e - 1, m);
      CongMul(a, b, Pow(a, e - 1), Pow(b, e - 1), m);
    }
  }

  /** Differences turn congruences into divisibility and back. */
  lemma CongIsZeroDifference(a: int, b: int, m: int)
    requires m > 0
    ensures a % m == b % m <==> (a - b) % m == 0
  {
    if a % m == b % m {
      CongSub(a, b, b, b, m);
    }
    if (a - b) % m == 0 {
      CongAdd(a - b, 0, b, b, m);
    }
  }

  lemma MinusOneMod(m: int)
    requires m >= 2
    ensures (-1) % m == m - 1 && 1 % m == 1
  {
    DivModUnique(-1, -1, m - 1, m);
    SmallMod(1, m);
  }

  // Laws of powers

  lemma {:induction false} PowAdd(b: int, e: nat, f: nat)
    ensures Pow(b, e + f) == Pow(b, e) * Pow(b, f)
  {
    if e != 0 {
      PowAdd(b, e - 1, f);
      assert Pow(b, e + f) == b * (Pow(b, e - 1) * Pow(b, f));
    }
  }

  lemma {:induction false} PowMul(b: int, e: nat, f: nat)
    ensures e * f >= 0 && Pow(b, e * f) == Pow(Pow(b, e), f)
  {
    if f != 0 {
      PowMul(b, e, f - 1);
      assert e * f == e + e * (f - 1);
      PowAdd(b, e, e * (f - 1));
    }
  }

  lemma {:induction false} PowProduct(a: int, b: int, e: nat)
    ensures Pow(a * b, e) == Pow(a, e) * Pow(b, e)
  {
    if e != 0 {
      PowProduct(a, b, e - 1);
      var x, y := Pow(a, e - 1), Pow(b, e - 1);
      assert Pow(a * b, e) == (a * b) * (x * y);
      MulSwap(a, b, x, y);
    }
  }

  lemma MulSwap(a: int, b: int, x: int, y: int)
    ensures (a * b) * (x * y) == (a * x) * (b * y)
  {
    assert (a * b) * (x * y) == a * (b * (x * y));
    assert b * (x * y) == x * (b * y);
    assert a * (x * (b * y)) == (a * x) * (b * y);
  }

  lemma {:induction false} PowOne(e: nat)
    ensures Pow(1, e) == 1
  {
    if e != 0 {
      PowOne(e - 1);
    }
  }

  lemma {:induction false} PowPositive(b: int, e: nat)
    requires b > 0
    ensures Pow(b, e) > 0
  {
    if e != 0 {
      PowPositive(b, e - 1);
      assert b * Pow(b, e - 1) > 0;
    }
  }

  lemma {:induction false} PowNonnegative(b: nat, e: nat)
    ensures Pow(b, e) >= 0
  {
    if e > 0 {
      PowNonnegative(b, e - 1);
    }
  }

  lemma PowTwo(b: int)
    ensures Pow(b, 2) == b * b
  {
    assert Pow(b, 1) == b * Pow(b, 0);
  }

  lemma PowFirst(b: int)
    ensures Pow(b, 1) == b
  {
    assert Pow(b, 1) == b * Pow(b, 0);
  }

  lemma {:induction false} PowMonotone(b: int, e: nat, f: nat)
    requires b >= 1 && e <= f
    ensures Pow(b, e) <= Pow(b, f)
    decreases f - e
  {
    if e < f {
      PowPositive(b, e);
      assert Pow(b, e + 1) == b * Pow(b, e);
      assert b * Pow(b, e) >= Pow(b, e);
      PowMonotone(b, e + 1, f);
    }
  }
}
