/** Prime moduli: Bezout, inverses, Euclid's lemma and Fermat's little theorem. */
module Primes {
  import opened Modular
  import opened FiniteSets

  ghost predicate Prime(p: int) {
    p >= 2 && forall k :: 2 <= k < p ==> p % k != 0
  }

  lemma {:induction false} Bezout(a: nat, b: nat) returns (g: int, x: int, y: int)
    requires a > 0 || b > 0
    ensures g > 0 && g == a * x + b * y
    ensures a % g == 0 && b % g == 0
    decreases b
  {
    if b == 0 {
      g, x, y := a, 1, 0;
      MultipleIsZero(1, g);
      MultipleIsZero(0, g);
    } else {
      var q, r := a / b, a % b;
      var x', y';
      g, x', y' := Bezout(b, r);
      x, y := y', x' - q * y';
      assert a == b * q + r;
      assert g == b * x' + r * y';
      assert r * y' == a * y' - b * (q * y') by {
        assert r * y' == (a - b * q) * y';
      }
      assert b * (x' - q * y') == b * x' - b * (q * y');
      CongMul(b, 0, q, q, g);
      CongAdd(b * q, 0, r, 0, g);
    }
  }

  /** A number that a prime does not divide has an inverse modulo that prime. */
  lemma InverseExists(a: int, p: int) returns (w: int)
    requires Prime(p) && a % p != 0
    ensures 0 <= w < p && (a * w) % p == 1
  {
    var r := a % p;
    var g, x, y := Bezout(p, r);
    if g != 1 {
      if g > p {
        SmallMod(p, g);
        assert false;
      }
      if g < p {
        assert false;
      }
      SmallMod(r, g);
      assert false;
    }
    assert r * y == 1 + (-x) * p;
    CongIntro(r * y, 1, -x, p);
    ModMod(a, p);
    ModMod(y, p);
    CongMul(a, r, y % p, y, p);
    SmallMod(1, p);
    w := y % p;
  }

  /** Euclid's lemma. */
  lemma NoZeroDivisors(a: int, b: int, p: int)
    requires Prime(p) && (a * b) % p == 0
    ensures a % p == 0 || b % p == 0
  {
    if a % p != 0 {
      var w := InverseExists(a, p);
      SmallMod(1, p);
      CongMul(a * w, 1, b, b, p);
      CongMul(a * b, 0, w, w, p);
      assert a * w * b == a * b * w;
    }
  }

  lemma NonzeroProduct(a: int, b: int, p: int)
    requires Prime(p) && a % p != 0 && b % p != 0
    ensures (a * b) % p != 0
  {
    if (a * b) % p == 0 {
      NoZeroDivisors(a, b, p);
    }
  }

  lemma {:induction false} NonzeroPow(a: int, e: nat, p: int)
    requires Prime(p) && a % p != 0
    ensures Pow(a, e) % p != 0
  {
    if e == 0 {
      SmallMod(1, p);
    } else {
      NonzeroPow(a, e - 1, p);
      NonzeroProduct(a, Pow(a, e - 1), p);
    }
  }

  lemma Cancel(a: int, b: int, c: int, p: int)
    requires Prime(p) && c % p != 0 && (a * c) % p == (b * c) % p
    ensures a % p == b % p
  {
    CongIsZeroDifference(a * c, b * c, p);
    assert a * c - b * c == (a - b) * c;
    NoZeroDivisors(a - b, c, p);
    CongIsZeroDifference(a, b, p);
  }

  /** Modulo a prime, 1 has only the two square roots 1 and -1. */
  lemma SquareRootsOfOne(x: int, p: int)
    requires Prime(p) && (x * x) % p == 1
    ensures x % p == 1 || x % p == p - 1
  {
    SmallMod(1, p);
    CongIsZeroDifference(x * x, 1, p);
    assert x * x - 1 == (x - 1) * (x + 1);
    NoZeroDivisors(x - 1, x + 1, p);
    CongIsZeroDifference(x, 1, p);
    CongIsZeroDifference(x, -1, p);
    MinusOneMod(p);
    assert x - (-1) == x + 1;
  }

  lemma InverseUnique(a: int, w: int, v: int, m: int)
    requires m > 0 && (a * w) % m == 1 % m && (a * v) % m == 1 % m
    ensures w % m == v % m
  {
    CongMul(a * w, 1, v, v, m);
    CongMul(a * v, 1, w, w, m);
    assert a * w * v == a * v * w;
  }

  // Fermat's little theorem, by comparing the product of a set of residues with the product
  // of its image under multiplication by a.

  ghost function Product(s: set<int>): int {
    if s == {} then 1 else
      var x := AnElement(s);
      x * Product(s - {x})
  }

  lemma {:induction false} ProductRemove(s: set<int>, x: int)
    requires x in s
    ensures Product(s) == x * Product(s - {x})
    decreases |s|
  {
    var y := AnElement(s);
    if x != y {
      ProductRemove(s - {y}, x);
      ProductRemove(s - {x}, y);
      assert s - {y} - {x} == s - {x} - {y};
      var rest := Product(s - {x} - {y});
      assert y * (x * rest) == x * (y * rest);
    }
  }

  ghost function Times(a: int, s: set<int>, p: int): set<int>
    requires p > 0
  {
    set x | x in s :: (a * x) % p
  }

  lemma {:induction false} ProductOfTimes(a: int, s: set<int>, p: int)
    requires Prime(p) && a % p != 0
    requires forall x :: x in s ==> 0 < x < p
    ensures |Times(a, s, p)| == |s|
    ensures Product(Times(a, s, p)) % p == (Pow(a, |s|) * Product(s)) % p
    decreases |s|
  {
    if s == {} {
      assert Times(a, s, p) == {};
    } else {
      var x := AnElement(s);
      var s', y := s - {x}, (a * x) % p;
      var t, t' := Times(a, s, p), Times(a, s - {x}, p);
      ProductOfTimes(a, s', p);
      assert y !in t' by {
        if y in t' {
          var z :| z in s' && (a * z) % p == y;
          assert a * z == z * a && a * x == x * a;
          Cancel(z, x, a, p);
          SmallMod(z, p);
          SmallMod(x, p);
        }
      }
      assert t == t' + {y} by {
        forall z | z in t ensures z in t' + {y} {
          var w :| w in s && (a * w) % p == z;
          assert w == x || w in s';
        }
      }
      assert t - {y} == t';
      ProductRemove(t, y);
      ProductRemove(s, x);
      ModMod(a * x, p);
      CongMul(y, a * x, Product(t'), Pow(a, |s'|) * Product(s'), p);
      assert Pow(a, |s|) == a * Pow(a, |s'|);
      MulSwap(a, x, Pow(a, |s'|), Product(s'));
    }
  }

  lemma {:induction false} ProductNonzero(s: set<int>, p: int)
    requires Prime(p)
    requires forall x :: x in s ==> 0 < x < p
    ensures Product(s) % p != 0
    decreases |s|
  {
    if s == {} {
      SmallMod(1, p);
    } else {
      var x := AnElement(s);
      ProductRemove(s, x);
      ProductNonzero(s - {x}, p);
      SmallMod(x, p);
      NonzeroProduct(x, Product(s - {x}), p);
    }
  }

  ghost function Residues(n: nat): (s: set<int>)
    ensures forall x :: x in s <==> 0 < x <= n
    ensures |s| == n
  {
    if n == 0 then {} else Residues(n - 1) + {n}
  }

  lemma Fermat(a: int, p: int)
    requires Prime(p) && a % p != 0
    ensures Pow(a, p - 1) % p == 1
  {
    var s := Residues(p - 1);
    ProductOfTimes(a, s, p);
    var t := Times(a, s, p);
    forall y | y in t ensures y in s {
      var x :| x in s && y == (a * x) % p;
      SmallMod(x, p);
      NonzeroProduct(a, x, p);
    }
    SubsetSize(t, s);
    ProductNonzero(s, p);
    assert 1 * Product(s) == Product(s);
    Cancel(Pow(a, p - 1), 1, Product(s), p);
    SmallMod(1, p);
  }
}
