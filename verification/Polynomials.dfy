/** Polynomials as coefficient sequences, constant term first. */
module Polynomials {
  import opened Modular
  import opened Primes

  type Poly = seq<int>

  function Eval(c: Poly, x: int): int {
    if c == [] then 0 else c[0] + x * Eval(c[1..], x)
  }

  function Add(a: Poly, b: Poly): (c: Poly)
    ensures |c| == if |a| >= |b| then |a| else |b|
  {
    if a == [] then b
    else if b == [] then a
    else [a[0] + b[0]] + Add(a[1..], b[1..])
  }

  function Scale(k: int, a: Poly): (c: Poly)
    ensures |c| == |a|
  {
    if a == [] then [] else [k * a[0]] + Scale(k, a[1..])
  }

  /** a times (X - r). */
  function TimesLinear(a: Poly, r: int): (c: Poly)
    ensures |c| == |a| + 1
  {
    Add([0] + a, Scale(-r, a))
  }

  lemma {:induction false} EvalAdd(a: Poly, b: Poly, x: int)
    ensures Eval(Add(a, b), x) == Eval(a, x) + Eval(b, x)
  {
    if a != [] && b != [] {
      EvalAdd(a[1..], b[1..], x);
      assert Add(a, b)[1..] == Add(a[1..], b[1..]);
      assert x * (Eval(a[1..], x) + Eval(b[1..], x)) == x * Eval(a[1..], x) + x * Eval(b[1..], x);
    }
  }

  lemma {:induction false} EvalScale(k: int, a: Poly, x: int)
    ensures Eval(Scale(k, a), x) == k * Eval(a, x)
  {
    if a != [] {
      EvalScale(k, a[1..], x);
      assert Scale(k, a)[1..] == Scale(k, a[1..]);
      assert x * (k * Eval(a[1..], x)) == k * (x * Eval(a[1..], x));
    }
  }

  lemma EvalTimesLinear(a: Poly, r: int, x: int)
    ensures Eval(TimesLinear(a, r), x) == (x - r) * Eval(a, x)
  {
    EvalAdd([0] + a, Scale(-r, a), x);
    EvalScale(-r, a, x);
    assert ([0] + a)[1..] == a;
    assert (x - r) * Eval(a, x) == x * Eval(a, x) + (-r) * Eval(a, x);
  }

  /** Coefficient i, also beyond the end. */
  function At(a: Poly, i: int): int {
    if 0 <= i < |a| then a[i] else 0
  }

  lemma {:induction false} AddAt(a: Poly, b: Poly, i: nat)
    ensures At(Add(a, b), i) == At(a, i) + At(b, i)
  {
    if a != [] && b != [] && i > 0 {
      AddAt(a[1..], b[1..], i - 1);
    }
  }

  lemma {:induction false} ScaleAt(k: int, a: Poly, i: nat)
    ensures At(Scale(k, a), i) == k * At(a, i)
  {
    if a != [] && i > 0 {
      ScaleAt(k, a[1..], i - 1);
    }
  }

  lemma TimesLinearAt(a: Poly, r: int, i: nat)
    ensures At(TimesLinear(a, r), i) == At(a, i - 1) - r * At(a, i)
  {
    AddAt([0] + a, Scale(-r, a), i);
    ScaleAt(-r, a, i);
    assert (-r) * At(a, i) == -(r * At(a, i));
  }

  /** Coefficients reduced modulo m. */
  function Reduced(c: Poly, m: int): (r: Poly)
    requires m > 0
    ensures |r| == |c| && forall i :: 0 <= i < |r| ==> r[i] == c[i] % m
  {
    seq(|c|, i requires 0 <= i < |c| => c[i] % m)
  }

  lemma {:induction false} EvalReduced(c: Poly, x: int, m: int)
    requires m > 0
    ensures Eval(Reduced(c, m), x) % m == Eval(c, x) % m
  {
    if c != [] {
      EvalReduced(c[1..], x, m);
      assert Reduced(c, m)[1..] == Reduced(c[1..], m);
      ModMod(c[0], m);
      CongMul(x, x, Eval(Reduced(c[1..], m), x), Eval(c[1..], x), m);
      CongAdd(c[0] % m, c[0], x * Eval(Reduced(c[1..], m), x), x * Eval(c[1..], x), m);
    }
  }

  /** Appending a coefficient appends its monomial. */
  lemma {:induction false} EvalSnoc(c: Poly, a: int, x: int)
    ensures Eval(c + [a], x) == Eval(c, x) + a * Pow(x, |c|)
  {
    if c == [] {
      assert c + [a] == [a];
      assert Eval([a], x) == a + x * Eval([], x);
    } else {
      EvalSnoc(c[1..], a, x);
      assert (c + [a])[1..] == c[1..] + [a];
      SnocStep(Eval(c[1..], x), a, Pow(x, |c| - 1), x);
    }
  }

  lemma SnocStep(e: int, a: int, p: int, x: int)
    ensures x * (e + a * p) == x * e + a * (x * p)
  {
    assert x * (a * p) == a * (x * p);
  }

  /** The quotient of c by (X - r). */
  ghost function Quotient(c: Poly, r: int): (q: Poly)
    requires c != []
    ensures |q| == |c| - 1
  {
    if |c| == 1 then [] else [Eval(c[1..], r)] + Quotient(c[1..], r)
  }

  lemma {:induction false} FactorTheorem(c: Poly, r: int, x: int)
    requires c != []
    ensures Eval(c, x) == Eval(c, r) + (x - r) * Eval(Quotient(c, r), x)
  {
    if |c| > 1 {
      FactorTheorem(c[1..], r, x);
      assert Quotient(c, r)[1..] == Quotient(c[1..], r);
      FactorStep(Eval(c[1..], r), Eval(Quotient(c[1..], r), x), x, r);
    }
  }

  lemma FactorStep(e: int, q: int, x: int, r: int)
    ensures x * (e + (x - r) * q) == r * e + (x - r) * (e + x * q)
  {
    assert x * ((x - r) * q) == (x - r) * (x * q);
    assert x * (e + (x - r) * q) == x * e + (x - r) * (x * q);
    assert (x - r) * (e + x * q) == (x - r) * e + (x - r) * (x * q);
    assert (x - r) * e == x * e - r * e;
  }

  ghost predicate DistinctMod(xs: seq<int>, m: int)
    requires m > 0
  {
    forall i, j :: 0 <= i < j < |xs| ==> xs[i] % m != xs[j] % m
  }

  /** A polynomial with at least as many distinct roots as coefficients vanishes everywhere. */
  lemma {:induction false} RootBound(c: Poly, xs: seq<int>, p: int, z: int)
    requires Prime(p) && |xs| >= |c| && DistinctMod(xs, p)
    requires forall i :: 0 <= i < |xs| ==> Eval(c, xs[i]) % p == 0
    ensures Eval(c, z) % p == 0
    decreases |c|
  {
    if c != [] {
      var r, rest, q := xs[0], xs[1..], Quotient(c, xs[0]);
      forall i | 0 <= i < |rest| ensures Eval(q, rest[i]) % p == 0 {
        var x := xs[i + 1];
        FactorTheorem(c, r, x);
        CongSub(Eval(c, x), 0, Eval(c, r), 0, p);
        CongIsZeroDifference(x, r, p);
        NoZeroDivisors(x - r, Eval(q, x), p);
      }
      RootBound(q, rest, p, z);
      FactorTheorem(c, r, z);
      CongMul(z - r, z - r, Eval(q, z), 0, p);
      CongAdd(Eval(c, r), 0, (z - r) * Eval(q, z), 0, p);
    } else {
      SmallMod(0, p);
    }
  }
}
