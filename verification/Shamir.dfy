/** prism/common/crypto/secretsharing/shamir.py: Shamir shares, Lagrange reconstruction and
    polynomials with a chosen root. Random coefficients are inputs. */
module Shamir {
  import opened Wrappers
  import opened Modular
  import opened Primes
  import opened Polynomials
  import opened ModMath

  datatype Share = Share(share: int, x: int, coeffcommits: Option<seq<int>>, originalcommit: Option<int>)

  /** What share accepts: a number, or a share that is shared again. */
  datatype Secret = Number(n: int) | Reshare(s: Share) {
    function Value(): int {
      match this
      case Number(n) => n
      case Reshare(s) => s.share
    }
  }

  datatype Params = Params(parties: nat, threshold: int, modulus: int) {
    ghost predicate Valid() {
      parties >= 3 && Prime(modulus)
    }

    /** The number of coefficients of a sharing polynomial. */
    function Degree1(): nat {
      if threshold < 1 then 1 else threshold
    }
  }

  /** threshold - 1 draws of randrange(1, modulus). */
  ghost predicate Drawn(rand: seq<int>, params: Params) {
    |rand| == params.Degree1() - 1 && forall i :: 0 <= i < |rand| ==> 1 <= rand[i] < params.modulus
  }

  /** Evaluation of a polynomial modulo m. */
  method P(coeffs: seq<int>, x: int, m: int) returns (y: int)
    requires m > 0
    ensures y == Eval(coeffs, x) % m
  {
    y := 0;
    SmallMod(0, m);
    for i := 0 to |coeffs|
      invariant y == Eval(coeffs[..i], x) % m
    {
      assert coeffs[..i + 1] == coeffs[..i] + [coeffs[i]];
      EvalSnoc(coeffs[..i], coeffs[i], x);
      ModMod(Eval(coeffs[..i], x), m);
      CongAdd(y, Eval(coeffs[..i], x), coeffs[i] * Pow(x, i), coeffs[i] * Pow(x, i), m);
      y := (y + coeffs[i] * Pow(x, i)) % m;
    }
    assert coeffs[..|coeffs|] == coeffs;
  }

  /** The shares of a polynomial: party i holds its value at i + 1. */
  function SharesOf(c: Poly, parties: nat, m: int): (shares: seq<Share>)
    requires m > 0
    ensures |shares| == parties
    ensures forall i :: 0 <= i < parties ==> shares[i] == Share(Eval(c, i + 1) % m, i, None, None)
  {
    seq(parties, i => Share(Eval(c, i + 1) % m, i, None, None))
  }

  method ShareValue(params: Params, secret: Secret, rand: seq<int>) returns (shares: seq<Share>)
    requires params.Valid() && Drawn(rand, params)
    ensures shares == SharesOf([secret.Value()] + rand, params.parties, params.modulus)
  {
    var coeffs := [secret.Value()];
    for i := 1 to params.Degree1()
      invariant coeffs == [secret.Value()] + rand[..i - 1]
    {
      coeffs := coeffs + [rand[i - 1]];
    }
    assert coeffs == [secret.Value()] + rand;
    shares := EvaluateAtParties(coeffs, params.parties, params.modulus);
  }

  method EvaluateAtParties(coeffs: seq<int>, parties: nat, m: int) returns (shares: seq<Share>)
    requires m > 0
    ensures shares == SharesOf(coeffs, parties, m)
  {
    shares := [];
    for i := 0 to parties
      invariant |shares| == i
      invariant forall k :: 0 <= k < i ==> shares[k] == SharesOf(coeffs, parties, m)[k]
    {
      var y := P(coeffs, i + 1, m);
      shares := shares + [Share(y, i, None, None)];
    }
  }

  // Lagrange coefficients

  function Points(shares: seq<Share>): (xs: seq<int>)
    ensures |xs| == |shares|
  {
    seq(|shares|, i requires 0 <= i < |shares| => shares[i].x + 1)
  }

  /** The product of z - xs[j] over the first k points other than xi. */
  ghost function Numerator(xs: seq<int>, xi: int, z: int, k: nat): int
    requires k <= |xs|
  {
    if k == 0 then 1
    else Numerator(xs, xi, z, k - 1) * (if xs[k - 1] == xi then 1 else z - xs[k - 1])
  }

  /** The coefficient of point xi after k points, or None when some inverse does not exist. */
  ghost function Coefficient(xs: seq<int>, xi: int, z: int, m: int, k: nat): (r: Option<int>)
    requires m > 1 && k <= |xs|
    ensures r.Some? ==> 0 <= r.value < m
  {
    if k == 0 then Some(1) else
      var r := Coefficient(xs, xi, z, m, k - 1);
      if r.None? || xs[k - 1] == xi then r else
        var w := Inverse(xi - xs[k - 1], m);
        if w.None? then None else Some((r.value * (z - xs[k - 1]) * w.value) % m)
  }

  ghost function Coefficients(xs: seq<int>, z: int, m: int, k: nat): (r: Option<seq<int>>)
    requires m > 1 && k <= |xs|
    ensures r.Some? ==> |r.value| == k
    ensures r.Some? <==> forall i :: 0 <= i < k ==> Coefficient(xs, xs[i], z, m, |xs|).Some?
    ensures r.Some? ==> forall i :: 0 <= i < k ==> r.value[i] == Coefficient(xs, xs[i], z, m, |xs|).value
  {
    if k == 0 then Some([]) else
      var r, c := Coefficients(xs, z, m, k - 1), Coefficient(xs, xs[k - 1], z, m, |xs|);
      if r.None? || c.None? then None else Some(r.value + [c.value])
  }

  function WeightedSum(coeffs: seq<int>, shares: seq<Share>, m: int, k: nat): (v: int)
    requires m > 1 && k <= |shares| && k <= |coeffs|
    ensures 0 <= v < m
  {
    if k == 0 then 0
    else Accumulate(WeightedSum(coeffs, shares, m, k - 1), coeffs[k - 1], shares[k - 1].share, m)
  }

  function Accumulate(value: int, coeff: int, share: int, m: int): (v: int)
    requires m > 1
    ensures 0 <= v < m
  {
    (value + coeff * share) % m
  }

  ghost function Reconstructed(shares: seq<Share>, iq: int, m: int): Option<int>
    requires m > 1
  {
    var coeffs := Coefficients(Points(shares), iq, m, |shares|);
    if coeffs.None? then None else Some(WeightedSum(coeffs.value, shares, m, |shares|))
  }

  /** None stands for NoModularInverseError. */
  method RecoverCoefficients(xs: seq<int>, ir: int, m: int) returns (r: Option<seq<int>>)
    requires m > 1
    ensures r == Coefficients(xs, ir, m, |xs|)
  {
    var coeffs := [];
    for i := 0 to |xs|
      invariant Coefficients(xs, ir, m, i) == Some(coeffs)
    {
      var result := 1;
      for j := 0 to |xs|
        invariant Coefficient(xs, xs[i], ir, m, j) == Some(result)
      {
        if xs[i] != xs[j] {
          var w := ModInv(xs[i] - xs[j], m);
          if w.None? {
            NoneStays(xs, xs[i], ir, m, j + 1);
            return None;
          }
          result := (result * (ir - xs[j]) * w.value) % m;
        }
      }
      coeffs := coeffs + [result];
    }
    r := Some(coeffs);
  }

  lemma {:induction false} NoneStays(xs: seq<int>, xi: int, z: int, m: int, k: nat)
    requires m > 1 && k <= |xs| && Coefficient(xs, xi, z, m, k).None?
    ensures Coefficient(xs, xi, z, m, |xs|).None?
    decreases |xs| - k
  {
    if k < |xs| {
      NoneStays(xs, xi, z, m, k + 1);
    }
  }

  method Reconstruct(shares: seq<Share>, iq: int, m: int) returns (r: Option<int>)
    requires m > 1
    ensures r == Reconstructed(shares, iq, m)
  {
    var coeffs := RecoverCoefficients(Points(shares), iq, m);
    if coeffs.None? {
      return None;
    }
    var value := 0;
    for i := 0 to |shares|
      invariant value == WeightedSum(coeffs.value, shares, m, i)
    {
      value := Accumulate(value, coeffs.value[i], shares[i].share, m);
    }
    r := Some(value);
  }

  // Interpolation

  lemma MulRegroup(r: int, d: int, a: int, w: int, b: int)
    ensures (r * a * w) * (d * b) == (r * d) * (a * (b * w))
  {
    assert (r * a * w) * (d * b) == (r * (a * w)) * (d * b);
    MulSwap(r, a * w, d, b);
    assert (a * w) * b == a * (b * w);
  }

  /** A coefficient times the denominator is the numerator. */
  lemma {:induction false} CoefficientRatio(xs: seq<int>, xi: int, z: int, m: int, k: nat)
    requires m > 1 && k <= |xs| && Coefficient(xs, xi, z, m, k).Some?
    ensures (Coefficient(xs, xi, z, m, k).value * Numerator(xs, xi, xi, k)) % m == Numerator(xs, xi, z, k) % m
  {
    if k > 0 {
      CoefficientRatio(xs, xi, z, m, k - 1);
      if xs[k - 1] != xi {
        var r, d, n := Coefficient(xs, xi, z, m, k - 1).value, Numerator(xs, xi, xi, k - 1), Numerator(xs, xi, z, k - 1);
        var a, b, w := z - xs[k - 1], xi - xs[k - 1], Inverse(xi - xs[k - 1], m).value;
        ModMod(r * a * w, m);
        CongMul((r * a * w) % m, r * a * w, d * b, d * b, m);
        MulRegroup(r, d, a, w, b);
        CongMul(a, a, b * w, 1, m);
        CongMul(r * d, n, a * (b * w), a, m);
      }
    }
  }

  /** Two different points that coincide modulo m. */
  ghost predicate Collide(xs: seq<int>, i: int, j: int, m: int)
    requires m > 0 && 0 <= i < |xs| && 0 <= j < |xs|
  {
    xs[i] != xs[j] && xs[i] % m == xs[j] % m
  }

  lemma DifferenceInvertible(a: int, b: int, m: int)
    requires Prime(m)
    ensures Inverse(a - b, m).Some? <==> a % m != b % m
  {
    CongIsZeroDifference(a, b, m);
    SmallMod(1, m);
    if a % m != b % m {
      var w := InverseExists(a - b, m);
      assert IsInverse(w, a - b, m);
    } else if Inverse(a - b, m).Some? {
      var w := Inverse(a - b, m).value;
      CongMul(a - b, 0, w, w, m);
    }
  }

  lemma {:induction false} CoefficientExists(xs: seq<int>, i: nat, z: int, m: int, k: nat)
    requires Prime(m) && i < |xs| && k <= |xs|
    ensures Coefficient(xs, xs[i], z, m, k).Some? <==> forall j :: 0 <= j < k ==> !Collide(xs, i, j, m)
  {
    if k > 0 {
      CoefficientExists(xs, i, z, m, k - 1);
      DifferenceInvertible(xs[i], xs[k - 1], m);
      assert Collide(xs, i, k - 1, m) <==> xs[i] != xs[k - 1] && xs[i] % m == xs[k - 1] % m;
    }
  }

  /** Reconstruction fails exactly when two different points coincide modulo m. */
  lemma ReconstructFails(shares: seq<Share>, iq: int, m: int)
    requires Prime(m)
    ensures Reconstructed(shares, iq, m).None? <==>
            exists i, j :: 0 <= i < |shares| && 0 <= j < |shares| && Collide(Points(shares), i, j, m)
  {
    var xs := Points(shares);
    forall i | 0 <= i < |xs|
      ensures Coefficient(xs, xs[i], iq, m, |xs|).Some? <==> forall j :: 0 <= j < |xs| ==> !Collide(xs, i, j, m)
    {
      CoefficientExists(xs, i, iq, m, |xs|);
    }
  }

  /** The numerator as a polynomial in z. */
  ghost function NumeratorPoly(xs: seq<int>, xi: int, k: nat): (c: Poly)
    requires k <= |xs|
    ensures |c| <= k + 1
    ensures xi in xs[..k] ==> |c| <= k
  {
    if k == 0 then [1] else
      var c := NumeratorPoly(xs, xi, k - 1);
      assert xs[..k] == xs[..k - 1] + [xs[k - 1]];
      if xs[k - 1] == xi then c else TimesLinear(c, xs[k - 1])
  }

  lemma {:induction false} EvalNumeratorPoly(xs: seq<int>, xi: int, k: nat, z: int)
    requires k <= |xs|
    ensures Eval(NumeratorPoly(xs, xi, k), z) == Numerator(xs, xi, z, k)
  {
    if k == 0 {
      assert Eval([1], z) == 1 + z * Eval([], z);
    } else {
      EvalNumeratorPoly(xs, xi, k - 1, z);
      if xs[k - 1] != xi {
        EvalTimesLinear(NumeratorPoly(xs, xi, k - 1), xs[k - 1], z);
        var n := Numerator(xs, xi, z, k - 1);
        assert (z - xs[k - 1]) * n == n * (z - xs[k - 1]);
      }
    }
  }

  lemma {:induction false} NumeratorVanishes(xs: seq<int>, xi: int, t: nat, k: nat)
    requires t < k <= |xs| && xs[t] != xi
    ensures Numerator(xs, xi, xs[t], k) == 0
  {
    if t < k - 1 {
      NumeratorVanishes(xs, xi, t, k - 1);
    }
  }

  lemma {:induction false} DenominatorNonzero(xs: seq<int>, i: nat, m: int, k: nat)
    requires Prime(m) && DistinctMod(xs, m) && i < |xs| && k <= |xs|
    ensures Numerator(xs, xs[i], xs[i], k) % m != 0
  {
    SmallMod(1, m);
    if k > 0 {
      DenominatorNonzero(xs, i, m, k - 1);
      if xs[k - 1] != xs[i] {
        CongIsZeroDifference(xs[i], xs[k - 1], m);
        NonzeroProduct(Numerator(xs, xs[i], xs[i], k - 1), xs[i] - xs[k - 1], m);
      }
    }
  }

  ghost function Weight(xs: seq<int>, i: nat, m: int): int
    requires m > 0 && i < |xs|
  {
    var w := Inverse(Numerator(xs, xs[i], xs[i], |xs|), m);
    if w.Some? then w.value else 0
  }

  lemma WeightInverts(xs: seq<int>, i: nat, m: int)
    requires Prime(m) && DistinctMod(xs, m) && i < |xs|
    ensures (Numerator(xs, xs[i], xs[i], |xs|) * Weight(xs, i, m)) % m == 1
  {
    DenominatorNonzero(xs, i, m, |xs|);
    var w := InverseExists(Numerator(xs, xs[i], xs[i], |xs|), m);
    SmallMod(1, m);
    assert IsInverse(w, Numerator(xs, xs[i], xs[i], |xs|), m);
  }

  /** The interpolating polynomial of the first k shares. */
  ghost function Interpolant(xs: seq<int>, shares: seq<Share>, m: int, k: nat): (c: Poly)
    requires m > 0 && k <= |xs| == |shares|
    ensures |c| <= |xs|
  {
    if k == 0 then [] else
      assert xs[..|xs|] == xs;
      Add(Interpolant(xs, shares, m, k - 1),
          Scale(shares[k - 1].share * Weight(xs, k - 1, m), NumeratorPoly(xs, xs[k - 1], |xs|)))
  }

  ghost function Term(xs: seq<int>, y: int, i: nat, z: int, m: int): int
    requires m > 0 && i < |xs|
  {
    (y * Weight(xs, i, m)) * Numerator(xs, xs[i], z, |xs|)
  }

  ghost function TermSum(xs: seq<int>, shares: seq<Share>, z: int, m: int, k: nat): int
    requires m > 0 && k <= |xs| == |shares|
  {
    if k == 0 then 0 else TermSum(xs, shares, z, m, k - 1) + Term(xs, shares[k - 1].share, k - 1, z, m)
  }

  lemma {:induction false} EvalInterpolant(xs: seq<int>, shares: seq<Share>, m: int, k: nat, z: int)
    requires m > 0 && k <= |xs| == |shares|
    ensures Eval(Interpolant(xs, shares, m, k), z) == TermSum(xs, shares, z, m, k)
  {
    if k > 0 {
      EvalInterpolant(xs, shares, m, k - 1, z);
      EvalWithTerm(Interpolant(xs, shares, m, k - 1), xs, shares[k - 1].share, k - 1, z, m);
    }
  }

  lemma EvalWithTerm(f: Poly, xs: seq<int>, y: int, i: nat, z: int, m: int)
    requires m > 0 && i < |xs|
    ensures Eval(Add(f, Scale(y * Weight(xs, i, m), NumeratorPoly(xs, xs[i], |xs|))), z) == Eval(f, z) + Term(xs, y, i, z, m)
  {
    var n := NumeratorPoly(xs, xs[i], |xs|);
    EvalAdd(f, Scale(y * Weight(xs, i, m), n), z);
    EvalScale(y * Weight(xs, i, m), n, z);
    EvalNumeratorPoly(xs, xs[i], |xs|, z);
  }

  lemma RatioToWeight(c: int, d: int, n: int, w: int, m: int)
    requires m > 1 && (c * d) % m == n % m && (d * w) % m == 1
    ensures c % m == (w * n) % m
  {
    SmallMod(1, m);
    CongMul(d * w, 1, c, c, m);
    CongMul(c * d, n, w, w, m);
    assert (d * w) * c == (c * d) * w;
    assert 1 * c == c && n * w == w * n;
  }

  lemma CoefficientIsWeighted(xs: seq<int>, i: nat, z: int, m: int)
    requires Prime(m) && DistinctMod(xs, m) && i < |xs|
    requires Coefficient(xs, xs[i], z, m, |xs|).Some?
    ensures Coefficient(xs, xs[i], z, m, |xs|).value % m == (Weight(xs, i, m) * Numerator(xs, xs[i], z, |xs|)) % m
  {
    CoefficientRatio(xs, xs[i], z, m, |xs|);
    WeightInverts(xs, i, m);
    RatioToWeight(Coefficient(xs, xs[i], z, m, |xs|).value, Numerator(xs, xs[i], xs[i], |xs|),
                  Numerator(xs, xs[i], z, |xs|), Weight(xs, i, m), m);
  }

  /** One more share on both sides. */
  lemma SumStep(xs: seq<int>, y: int, c: int, z: int, m: int, k: nat, s: int, f: int)
    requires Prime(m) && DistinctMod(xs, m) && k < |xs|
    requires Coefficient(xs, xs[k], z, m, |xs|) == Some(c)
    requires s % m == f % m
    ensures Accumulate(s, c, y, m) % m == (f + Term(xs, y, k, z, m)) % m
  {
    CoefficientIsWeighted(xs, k, z, m);
    AccumulateCong(s, f, c, y, Weight(xs, k, m), Numerator(xs, xs[k], z, |xs|), m);
  }

  lemma AccumulateCong(s: int, f: int, c: int, y: int, w: int, n: int, m: int)
    requires m > 1 && s % m == f % m && c % m == (w * n) % m
    ensures Accumulate(s, c, y, m) % m == (f + (y * w) * n) % m
  {
    CongMul(c, w * n, y, y, m);
    assert (w * n) * y == (y * w) * n;
    ModMod(s + c * y, m);
    CongAdd(s, f, c * y, (y * w) * n, m);
  }

  /** The weighted sum is the interpolant at the queried point. */
  lemma {:induction false} SumIsInterpolant(xs: seq<int>, shares: seq<Share>, coeffs: seq<int>, z: int, m: int, k: nat)
    requires Prime(m) && DistinctMod(xs, m) && k <= |xs| == |shares| == |coeffs|
    requires Coefficients(xs, z, m, |xs|) == Some(coeffs)
    ensures WeightedSum(coeffs, shares, m, k) % m == TermSum(xs, shares, z, m, k) % m
  {
    if k > 0 {
      SumIsInterpolant(xs, shares, coeffs, z, m, k - 1);
      SumStep(xs, shares[k - 1].share, coeffs[k - 1], z, m, k - 1, WeightedSum(coeffs, shares, m, k - 1),
              TermSum(xs, shares, z, m, k - 1));
    }
  }

  lemma UnitTerm(f: int, y: int, w: int, n: int, m: int)
    requires m > 1 && f % m == 0 && (n * w) % m == 1
    ensures (f + (y * w) * n) % m == y % m
  {
    SmallMod(1, m);
    CongMul(n * w, 1, y, y, m);
    assert (n * w) * y == (y * w) * n && 1 * y == y;
    CongAdd(f, 0, (y * w) * n, y, m);
  }

  /** What the interpolant of k shares is at point t. */
  ghost function AtPoint(shares: seq<Share>, k: nat, t: nat): int
    requires t < |shares|
  {
    if t < k then shares[t].share else 0
  }

  lemma OtherPoint(xs: seq<int>, y: int, k: nat, t: nat, m: int)
    requires m > 0 && DistinctMod(xs, m) && k < |xs| && t < |xs| && t != k
    ensures Term(xs, y, k, xs[t], m) == 0
  {
    assert xs[t] != xs[k] by {
      assert xs[if t < k then t else k] % m != xs[if t < k then k else t] % m;
    }
    NumeratorVanishes(xs, xs[k], t, |xs|);
  }

  lemma OwnPoint(xs: seq<int>, f: int, y: int, t: nat, m: int)
    requires Prime(m) && DistinctMod(xs, m) && t < |xs| && f % m == 0
    ensures (f + Term(xs, y, t, xs[t], m)) % m == y % m
  {
    WeightInverts(xs, t, m);
    UnitTerm(f, y, Weight(xs, t, m), Numerator(xs, xs[t], xs[t], |xs|), m);
  }

  lemma TermStep(xs: seq<int>, shares: seq<Share>, f: int, m: int, k: nat, t: nat)
    requires Prime(m) && DistinctMod(xs, m) && k < |xs| == |shares| && t < |xs|
    requires f % m == AtPoint(shares, k, t) % m
    ensures (f + Term(xs, shares[k].share, k, xs[t], m)) % m == AtPoint(shares, k + 1, t) % m
  {
    if t == k {
      SmallMod(0, m);
      OwnPoint(xs, f, shares[t].share, t, m);
    } else {
      OtherPoint(xs, shares[k].share, k, t, m);
    }
  }

  /** The interpolant of k shares takes their values at their points and 0 at the others. */
  lemma {:induction false} InterpolantAtPoint(xs: seq<int>, shares: seq<Share>, m: int, k: nat, t: nat)
    requires Prime(m) && DistinctMod(xs, m) && k <= |xs| == |shares| && t < |xs|
    ensures TermSum(xs, shares, xs[t], m, k) % m == AtPoint(shares, k, t) % m
  {
    if k > 0 {
      InterpolantAtPoint(xs, shares, m, k - 1, t);
      TermStep(xs, shares, TermSum(xs, shares, xs[t], m, k - 1), m, k - 1, t);
    }
  }

  lemma DistinctNeverCollide(xs: seq<int>, i: nat, j: nat, m: int)
    requires m > 0 && DistinctMod(xs, m) && i < |xs| && j < |xs|
    ensures !Collide(xs, i, j, m)
  {
    if j < i {
      assert xs[j] % m != xs[i] % m;
    }
  }

  lemma DistinctCoefficients(xs: seq<int>, z: int, m: int)
    requires Prime(m) && DistinctMod(xs, m)
    ensures Coefficients(xs, z, m, |xs|).Some?
  {
    forall i | 0 <= i < |xs| ensures Coefficient(xs, xs[i], z, m, |xs|).Some? {
      CoefficientExists(xs, i, z, m, |xs|);
      forall j | 0 <= j < |xs| ensures !Collide(xs, i, j, m) {
        DistinctNeverCollide(xs, i, j, m);
      }
    }
  }

  lemma EvalDifference(f: Poly, c: Poly, x: int, m: int)
    requires m > 0
    ensures Eval(Add(f, Scale(-1, c)), x) % m == 0 <==> Eval(f, x) % m == Eval(c, x) % m
  {
    EvalAdd(f, Scale(-1, c), x);
    EvalScale(-1, c, x);
    CongIsZeroDifference(Eval(f, x), Eval(c, x), m);
  }

  /** Polynomials with few coefficients that agree at enough points agree everywhere. */
  lemma AgreeEverywhere(f: Poly, c: Poly, xs: seq<int>, m: int, z: int)
    requires Prime(m) && |f| <= |xs| && |c| <= |xs| && DistinctMod(xs, m)
    requires forall t :: 0 <= t < |xs| ==> Eval(f, xs[t]) % m == Eval(c, xs[t]) % m
    ensures Eval(f, z) % m == Eval(c, z) % m
  {
    var diff := Add(f, Scale(-1, c));
    forall t | 0 <= t < |xs| ensures Eval(diff, xs[t]) % m == 0 {
      EvalDifference(f, c, xs[t], m);
    }
    RootBound(diff, xs, m, z);
    EvalDifference(f, c, z, m);
  }

  /** The interpolant of shares on one polynomial is that polynomial everywhere. */
  lemma InterpolantAgrees(c: Poly, shares: seq<Share>, xs: seq<int>, z: int, m: int)
    requires Prime(m) && |c| <= |xs| == |shares| && DistinctMod(xs, m)
    requires forall i :: 0 <= i < |xs| ==> shares[i].share % m == Eval(c, xs[i]) % m
    ensures Eval(Interpolant(xs, shares, m, |xs|), z) % m == Eval(c, z) % m
  {
    forall t | 0 <= t < |xs| ensures Eval(Interpolant(xs, shares, m, |xs|), xs[t]) % m == Eval(c, xs[t]) % m {
      EvalInterpolant(xs, shares, m, |xs|, xs[t]);
      InterpolantAtPoint(xs, shares, m, |xs|, t);
    }
    AgreeEverywhere(Interpolant(xs, shares, m, |xs|), c, xs, m, z);
  }

  /** Enough shares of one polynomial at points that differ modulo m determine it everywhere. */
  lemma Interpolation(c: Poly, shares: seq<Share>, z: int, m: int)
    requires Prime(m) && |c| <= |shares| && DistinctMod(Points(shares), m)
    requires forall i :: 0 <= i < |shares| ==> shares[i].share % m == Eval(c, shares[i].x + 1) % m
    ensures Reconstructed(shares, z, m) == Some(Eval(c, z) % m)
  {
    var xs := Points(shares);
    DistinctCoefficients(xs, z, m);
    var coeffs := Coefficients(xs, z, m, |xs|).value;
    SumIsInterpolant(xs, shares, coeffs, z, m, |xs|);
    EvalInterpolant(xs, shares, m, |xs|, z);
    InterpolantAgrees(c, shares, xs, z, m);
    SmallMod(WeightedSum(coeffs, shares, m, |xs|), m);
  }

  // Only the Lagrange coefficients interpolate every polynomial

  lemma {:induction false} WeightedSumCong(coeffs: seq<int>, a: seq<Share>, b: seq<Share>, m: int, k: nat)
    requires m > 1 && k <= |a| == |b| == |coeffs|
    requires forall i :: 0 <= i < k ==> a[i].share % m == b[i].share % m
    ensures WeightedSum(coeffs, a, m, k) == WeightedSum(coeffs, b, m, k)
  {
    if k > 0 {
      WeightedSumCong(coeffs, a, b, m, k - 1);
      var v := WeightedSum(coeffs, a, m, k - 1);
      CongMul(coeffs[k - 1], coeffs[k - 1], a[k - 1].share, b[k - 1].share, m);
      CongAdd(v, v, coeffs[k - 1] * a[k - 1].share, coeffs[k - 1] * b[k - 1].share, m);
    }
  }

  /** The values of a polynomial at some points. */
  function Valued(xs: seq<int>, c: Poly, m: int): (shares: seq<Share>)
    requires m > 0
    ensures |shares| == |xs| && Points(shares) == xs
    ensures forall i :: 0 <= i < |xs| ==> shares[i].share == Eval(c, xs[i]) % m && shares[i].x + 1 == xs[i]
  {
    var shares := seq(|xs|, i requires 0 <= i < |xs| => Share(Eval(c, xs[i]) % m, xs[i] - 1, None, None));
    assert Points(shares) == xs;
    shares
  }

  /** If c has few coefficients, weighing its values at xs gives its value at z. */
  ghost predicate GivesValue(xs: seq<int>, ws: seq<int>, c: Poly, z: int, m: int)
    requires m > 1 && |ws| == |xs|
  {
    |c| <= |xs| ==> WeightedSum(ws, Valued(xs, c, m), m, |xs|) == Eval(c, z) % m
  }

  /** So it is for every polynomial. */
  ghost predicate Interpolates(xs: seq<int>, ws: seq<int>, z: int, m: int)
    requires m > 1 && |ws| == |xs|
  {
    forall c: Poly :: GivesValue(xs, ws, c, z, m)
  }

  /** If only one share is not 0, the weighted sum is its weight times it. */
  lemma {:induction false} SingleTerm(ws: seq<int>, shares: seq<Share>, m: int, k: nat, i: nat)
    requires m > 1 && k <= |shares| == |ws| && i < |shares|
    requires forall t :: 0 <= t < |shares| && t != i ==> shares[t].share == 0
    ensures WeightedSum(ws, shares, m, k) == (if i < k then ws[i] * shares[i].share else 0) % m
  {
    SmallMod(0, m);
    if k > 0 {
      SingleTerm(ws, shares, m, k - 1, i);
      if i == k - 1 {
        assert 0 + ws[i] * shares[i].share == ws[i] * shares[i].share;
      } else {
        assert ws[k - 1] * 0 == 0;
        ModMod(WeightedSum(ws, shares, m, k - 1), m);
        SmallMod(WeightedSum(ws, shares, m, k - 1), m);
      }
    }
  }

  /** The numerator polynomial of point i is 0 at the other points. */
  lemma BasisValues(xs: seq<int>, i: nat, m: int, t: nat)
    requires m > 0 && DistinctMod(xs, m) && i < |xs| && t < |xs|
    ensures |NumeratorPoly(xs, xs[i], |xs|)| <= |xs|
    ensures Eval(NumeratorPoly(xs, xs[i], |xs|), xs[t]) == if t == i then Numerator(xs, xs[i], xs[i], |xs|) else 0
  {
    assert xs[..|xs|] == xs;
    EvalNumeratorPoly(xs, xs[i], |xs|, xs[t]);
    if t != i {
      assert xs[if t < i then t else i] % m != xs[if t < i then i else t] % m;
      NumeratorVanishes(xs, xs[i], t, |xs|);
    }
  }

  lemma WeightOfBasis(xs: seq<int>, ws: seq<int>, z: int, m: int, i: nat)
    requires Prime(m) && DistinctMod(xs, m) && |ws| == |xs| && Interpolates(xs, ws, z, m) && i < |xs|
    ensures (ws[i] * Numerator(xs, xs[i], xs[i], |xs|)) % m == Numerator(xs, xs[i], z, |xs|) % m
  {
    var n, c, d := |xs|, NumeratorPoly(xs, xs[i], |xs|), Numerator(xs, xs[i], xs[i], |xs|);
    var shares := Valued(xs, c, m);
    SmallMod(0, m);
    BasisValues(xs, i, m, i);
    forall t | 0 <= t < n && t != i ensures shares[t].share == 0 {
      BasisValues(xs, i, m, t);
    }
    SingleTerm(ws, shares, m, n, i);
    EvalNumeratorPoly(xs, xs[i], n, z);
    assert GivesValue(xs, ws, c, z, m);
    ModMod(d, m);
    CongMul(ws[i], ws[i], d % m, d, m);
  }

  /** Reduced weights interpolate every polynomial exactly if they are the Lagrange coefficients. */
  lemma OnlyLagrangeWeights(xs: seq<int>, ws: seq<int>, z: int, m: int)
    requires Prime(m) && DistinctMod(xs, m) && |ws| == |xs| && forall i :: 0 <= i < |ws| ==> 0 <= ws[i] < m
    ensures Interpolates(xs, ws, z, m) <==> Coefficients(xs, z, m, |xs|) == Some(ws)
  {
    DistinctCoefficients(xs, z, m);
    var coeffs := Coefficients(xs, z, m, |xs|).value;
    if coeffs == ws {
      forall c: Poly ensures GivesValue(xs, ws, c, z, m) {
        if |c| <= |xs| {
          ValuesInterpolate(xs, c, z, m);
        }
      }
    }
    if Interpolates(xs, ws, z, m) {
      forall i | 0 <= i < |xs| ensures coeffs[i] == ws[i] {
        WeightOfBasis(xs, ws, z, m, i);
        SameWeight(xs, ws[i], z, m, i);
      }
    }
  }

  lemma ValuesInterpolate(xs: seq<int>, c: Poly, z: int, m: int)
    requires Prime(m) && DistinctMod(xs, m) && |c| <= |xs|
    ensures Reconstructed(Valued(xs, c, m), z, m) == Some(Eval(c, z) % m)
  {
    forall i | 0 <= i < |xs| ensures Valued(xs, c, m)[i].share % m == Eval(c, Valued(xs, c, m)[i].x + 1) % m {
      ModMod(Eval(c, xs[i]), m);
    }
    Interpolation(c, Valued(xs, c, m), z, m);
  }

  lemma SameWeight(xs: seq<int>, w: int, z: int, m: int, i: nat)
    requires Prime(m) && DistinctMod(xs, m) && i < |xs| && 0 <= w < m
    requires Coefficient(xs, xs[i], z, m, |xs|).Some?
    requires (w * Numerator(xs, xs[i], xs[i], |xs|)) % m == Numerator(xs, xs[i], z, |xs|) % m
    ensures Coefficient(xs, xs[i], z, m, |xs|).value == w
  {
    var v, d := Coefficient(xs, xs[i], z, m, |xs|).value, Numerator(xs, xs[i], xs[i], |xs|);
    CoefficientRatio(xs, xs[i], z, m, |xs|);
    DenominatorNonzero(xs, i, m, |xs|);
    Cancel(v, w, d, m);
    SmallMod(v, m);
    SmallMod(w, m);
  }

  // Duplicates

  lemma {:induction false} OneCopyWeighsOne(xs: seq<int>, x: int, z: int, m: int, k: nat)
    requires m > 1 && k <= |xs| && forall i :: 0 <= i < |xs| ==> xs[i] == x
    ensures Coefficient(xs, x, z, m, k) == Some(1)
  {
    if k > 0 {
      OneCopyWeighsOne(xs, x, z, m, k - 1);
    }
  }

  lemma {:induction false} CopiesSum(coeffs: seq<int>, shares: seq<Share>, y: int, m: int, k: nat)
    requires m > 1 && k <= |shares| == |coeffs|
    requires forall i :: 0 <= i < |shares| ==> coeffs[i] == 1 && shares[i].share == y
    ensures WeightedSum(coeffs, shares, m, k) == (k * y) % m
  {
    if k == 0 {
      SmallMod(0, m);
    } else {
      CopiesSum(coeffs, shares, y, m, k - 1);
      ModMod((k - 1) * y, m);
      CongAdd(((k - 1) * y) % m, (k - 1) * y, 1 * y, y, m);
      assert (k - 1) * y + y == k * y;
    }
  }

  /** A share given k times counts k times: k copies reconstruct k times its value. */
  lemma CopiesAdd(share: Share, k: nat, z: int, m: int)
    requires m > 1
    ensures Reconstructed(seq(k, i => share), z, m) == Some((k * share.share) % m)
  {
    var shares := seq(k, i => share);
    var xs := Points(shares);
    OneCopyWeighsOne(xs, share.x + 1, z, m, k);
    var coeffs := Coefficients(xs, z, m, k).value;
    CopiesSum(coeffs, shares, share.share, m, k);
  }

  // The sharing round trip

  /** A selection of distinct parties' shares. */
  ghost predicate Selected(chosen: seq<Share>, shares: seq<Share>) {
    && (forall i :: 0 <= i < |chosen| ==> chosen[i] in shares)
    && forall i, j :: 0 <= i < j < |chosen| ==> chosen[i].x != chosen[j].x
  }

  lemma SelectedPoints(chosen: seq<Share>, c: Poly, parties: nat, m: int)
    requires Prime(m) && parties <= m && Selected(chosen, SharesOf(c, parties, m))
    ensures DistinctMod(Points(chosen), m)
    ensures forall i :: 0 <= i < |chosen| ==> chosen[i].share % m == Eval(c, chosen[i].x + 1) % m
  {
    forall i | 0 <= i < |chosen|
      ensures 0 <= chosen[i].x < parties && chosen[i].share % m == Eval(c, chosen[i].x + 1) % m
    {
      ModMod(Eval(c, chosen[i].x + 1), m);
    }
    var xs := Points(chosen);
    forall i, j | 0 <= i < j < |xs| ensures xs[i] % m != xs[j] % m {
      if xs[i] % m == xs[j] % m {
        CongIsZeroDifference(xs[i], xs[j], m);
        CongIsZeroDifference(xs[j], xs[i], m);
        assert 0 < xs[i] - xs[j] < m || 0 < xs[j] - xs[i] < m;
        SmallMod(if xs[i] > xs[j] then xs[i] - xs[j] else xs[j] - xs[i], m);
      }
    }
  }

  /** Any threshold many shares give the sharing polynomial's value anywhere, and the secret at 0. */
  lemma ShareReconstruct(params: Params, secret: Secret, rand: seq<int>, chosen: seq<Share>, iq: int)
    requires params.Valid() && params.parties <= params.modulus && Drawn(rand, params)
    requires Selected(chosen, SharesOf([secret.Value()] + rand, params.parties, params.modulus))
    requires |chosen| >= 1 && |chosen| >= params.threshold
    ensures Reconstructed(chosen, iq, params.modulus) == Some(Eval([secret.Value()] + rand, iq) % params.modulus)
    ensures iq == 0 ==> Reconstructed(chosen, iq, params.modulus) == Some(secret.Value() % params.modulus)
  {
    var c := [secret.Value()] + rand;
    SelectedPoints(chosen, c, params.parties, params.modulus);
    Interpolation(c, chosen, iq, params.modulus);
  }

  /** A share that is shared again comes back, modulo the modulus, from threshold many of its shares. */
  lemma ReshareReconstructs(params: Params, share: Share, rand: seq<int>, chosen: seq<Share>)
    requires params.Valid() && params.parties <= params.modulus && Drawn(rand, params)
    requires Selected(chosen, SharesOf([Reshare(share).Value()] + rand, params.parties, params.modulus))
    requires |chosen| >= 1 && |chosen| >= params.threshold
    ensures Reconstructed(chosen, 0, params.modulus) == Some(share.share % params.modulus)
  {
    ShareReconstruct(params, Reshare(share), rand, chosen, 0);
  }

  // Polynomials with a root at iq

  function Reverse(s: seq<int>): (r: seq<int>)
    ensures |r| == |s|
  {
    if s == [] then [] else [s[|s| - 1]] + Reverse(s[..|s| - 1])
  }

  /** The random cofactor, given highest coefficient first, times X - iq. */
  function RootPolynomial(rand: seq<int>, iq: int): Poly {
    TimesLinear(Reverse(rand), iq)
  }

  lemma {:induction false} ReverseAt(s: seq<int>, k: nat)
    requires k < |s|
    ensures Reverse(s)[k] == s[|s| - 1 - k]
  {
    if k > 0 {
      ReverseAt(s[..|s| - 1], k - 1);
    }
  }

  lemma RootPolynomialAt(rand: seq<int>, iq: int, k: nat)
    requires k <= |rand|
    ensures var init := rand + [0];
            RootPolynomial(rand, iq)[k] ==
            if k < |rand| then init[|rand| - k] - iq * init[|rand| - 1 - k] else init[0]
  {
    var n := |rand|;
    TimesLinearAt(Reverse(rand), iq, k);
    if k < n {
      ReverseAt(rand, k);
    }
    if k > 0 {
      ReverseAt(rand, k - 1);
    }
  }

  /** The coefficients built by inserting at the front are those of the product by X - iq. */
  method RootCoefficients(rand: seq<int>, iq: int, m: int) returns (coeff: seq<int>)
    requires m > 0 && forall i :: 0 <= i < |rand| ==> 0 <= rand[i] < m
    ensures coeff == Reduced(RootPolynomial(rand, iq), m)
  {
    var init := rand + [0];
    coeff := [init[0]];
    for i := 1 to |init|
      invariant |coeff| == i && coeff[i - 1] == init[0]
      invariant forall k :: 0 <= k < i - 1 ==> coeff[k] == (init[i - 1 - k] - iq * init[i - 2 - k]) % m
    {
      coeff := [(init[i] - iq * init[i - 1]) % m] + coeff;
    }
    SmallMod(init[0], m);
    forall k | 0 <= k < |coeff| ensures coeff[k] == Reduced(RootPolynomial(rand, iq), m)[k] {
      RootPolynomialAt(rand, iq, k);
    }
  }

  lemma SharesOfReduced(c: Poly, parties: nat, m: int)
    requires m > 0
    ensures SharesOf(Reduced(c, m), parties, m) == SharesOf(c, parties, m)
  {
    forall i | 0 <= i < parties ensures SharesOf(Reduced(c, m), parties, m)[i] == SharesOf(c, parties, m)[i] {
      EvalReduced(c, i + 1, m);
    }
  }

  method RandomPolynomialRootAt(params: Params, iq: int, rand: seq<int>) returns (shares: seq<Share>)
    requires params.Valid() && Drawn(rand, params)
    ensures shares == SharesOf(RootPolynomial(rand, iq), params.parties, params.modulus)
  {
    var coeff := RootCoefficients(rand, iq, params.modulus);
    SharesOfReduced(RootPolynomial(rand, iq), params.parties, params.modulus);
    shares := EvaluateAtParties(coeff, params.parties, params.modulus);
  }

  /** Shares added party by party. */
  function AddShares(a: seq<Share>, b: seq<Share>): (c: seq<Share>)
    requires |a| == |b|
    ensures |c| == |a|
    ensures forall i :: 0 <= i < |c| ==> c[i] == Share(a[i].share + b[i].share, a[i].x, None, None)
  {
    seq(|a|, i requires 0 <= i < |a| => Share(a[i].share + b[i].share, a[i].x, None, None))
  }

  /** Adding the shares of a polynomial with a root at iq changes every share and not what
      enough parties reconstruct at iq. */
  lemma RootPolynomialMasks(params: Params, c: Poly, rand: seq<int>, iq: int, chosen: seq<Share>, masks: seq<Share>)
    requires params.Valid() && params.parties <= params.modulus && Drawn(rand, params)
    requires |c| <= |chosen| == |masks| && 1 <= |chosen| && params.threshold <= |chosen|
    requires Selected(chosen, SharesOf(c, params.parties, params.modulus))
    requires forall i :: 0 <= i < |masks| ==> masks[i].x == chosen[i].x
    requires Selected(masks, SharesOf(RootPolynomial(rand, iq), params.parties, params.modulus))
    ensures |RootPolynomial(rand, iq)| == (if params.threshold < 1 then 1 else params.threshold)
    ensures Eval(RootPolynomial(rand, iq), iq) == 0
    ensures Reconstructed(AddShares(chosen, masks), iq, params.modulus) == Reconstructed(chosen, iq, params.modulus)
  {
    var m, r := params.modulus, RootPolynomial(rand, iq);
    EvalTimesLinear(Reverse(rand), iq, iq);
    var sums := AddShares(chosen, masks);
    SelectedPoints(chosen, c, params.parties, m);
    SelectedPoints(masks, r, params.parties, m);
    forall i | 0 <= i < |sums| ensures sums[i].share % m == Eval(Add(c, r), sums[i].x + 1) % m {
      var x := chosen[i].x + 1;
      EvalAdd(c, r, x);
      CongAdd(chosen[i].share, Eval(c, x), masks[i].share, Eval(r, x), m);
    }
    assert Points(sums) == Points(chosen);
    Interpolation(Add(c, r), sums, iq, m);
    Interpolation(c, chosen, iq, m);
    EvalAdd(c, r, iq);
  }
}
