/** prism/common/crypto/secretsharing/feldmans.py: shares that carry commitments to the
    coefficients of their polynomial. Shares are reduced modulo q, commitments modulo p. */
module Feldman {
  import opened Wrappers
  import opened Modular
  import opened Primes
  import opened Polynomials
  import opened ModMath
  import opened Shamir

  /** sharing.modulus is the order q; p and g are the commitment parameters. */
  datatype Group = Group(sharing: Params, p: int, g: int) {
    /** p and q prime and the q-th power of g is 1, as get_commitment_parameters arranges. */
    ghost predicate Valid() {
      sharing.Valid() && Prime(p) && Pow(g, sharing.modulus) % p == 1
    }

    /** g to a power; a negative one is a power of the inverse of g, as in Python since 3.8. */
    ghost function Commit(value: int): (r: int)
      requires p > 0
      ensures 0 <= r < p
    {
      if value >= 0 then PowMod(g, value, p)
      else if Inverse(g, p).Some? then PowMod(Inverse(g, p).value, -value, p)
      else 0
    }

    /** Otherwise Python's pow raises a ValueError. */
    ghost predicate CanCommit(value: int)
      requires p > 0
    {
      value >= 0 || Inverse(g, p).Some?
    }

    ghost function Commits(coeffs: seq<int>): (r: seq<int>)
      requires p > 0
      ensures |r| == |coeffs| && forall i :: 0 <= i < |r| ==> r[i] == Commit(coeffs[i])
    {
      seq(|coeffs|, i requires 0 <= i < |coeffs| => Commit(coeffs[i]))
    }
  }

  /** None stands for the ValueError of a base without an inverse. */
  method CommitTo(group: Group, value: int) returns (r: Option<int>)
    requires group.p > 0
    ensures r == if group.CanCommit(value) then Some(group.Commit(value)) else None
  {
    if value >= 0 {
      return Some(PowMod(group.g, value, group.p));
    }
    var w := ModInv(group.g, group.p);
    r := if w.None? then None else Some(PowMod(w.value, -value, group.p));
  }

  /** The product of the first k commitments raised to the powers of x. */
  function Reference(commits: seq<int>, x: nat, p: int, k: nat): (ref: int)
    requires p > 1 && k <= |commits|
    ensures 0 <= ref < p
  {
    if k == 0 then 1 else
      (Reference(commits, x, p, k - 1) * Pow(commits[k - 1], PowNat(x, k - 1))) % p
  }

  function PowNat(x: nat, i: nat): (r: nat)
    ensures r == Pow(x, i)
  {
    PowNonnegative(x, i);
    Pow(x, i)
  }

  /** x is at least -1, the index of a dummy share. None stands for a ValueError of commit. */
  method VerifyD(group: Group, share: int, x: int, commits: seq<int>) returns (ok: Option<bool>)
    requires group.p > 1 && x >= -1
    ensures ok == if group.CanCommit(share)
                  then Some(Reference(commits, x + 1, group.p, |commits|) == group.Commit(share)) else None
  {
    var ref := 1;
    for i := 0 to |commits|
      invariant ref == Reference(commits, x + 1, group.p, i)
    {
      ref := (ref * Pow(commits[i], PowNat(x + 1, i))) % group.p;
    }
    var c := CommitTo(group, share);
    ok := if c.None? then None else Some(ref == c.value);
  }

  method Verify(group: Group, share: Share) returns (ok: Option<bool>)
    requires group.p > 1 && share.x >= -1 && share.coeffcommits.Some?
    ensures ok == if group.CanCommit(share.share) then Some(Accepts(group, share)) else None
  {
    ok := VerifyD(group, share.share, share.x, share.coeffcommits.value);
  }

  ghost predicate Accepts(group: Group, share: Share)
    requires group.p > 1 && share.x >= -1 && share.coeffcommits.Some?
  {
    var commits := share.coeffcommits.value;
    Reference(commits, share.x + 1, group.p, |commits|) == group.Commit(share.share)
  }

  /** The shares of a polynomial, with the commitments to its coefficients where these are required. */
  ghost function CommittedShares(group: Group, c: Poly, original: Option<int>, required: bool): (shares: seq<Share>)
    requires group.p > 0 && group.sharing.modulus > 0
    ensures |shares| == group.sharing.parties
    ensures forall i :: 0 <= i < |shares| ==>
              shares[i] == Share(Eval(c, i + 1) % group.sharing.modulus, i,
                                 if required then Some(group.Commits(c)) else None, original)
  {
    seq(group.sharing.parties, i =>
      Share(Eval(c, i + 1) % group.sharing.modulus, i, if required then Some(group.Commits(c)) else None, original))
  }

  /** A shared share keeps its original commitment. */
  method ShareValue(group: Group, secret: Secret, required: bool, rand: seq<int>) returns (shares: seq<Share>)
    requires group.Valid() && Drawn(rand, group.sharing)
    ensures shares == CommittedShares(group, [secret.Value()] + rand,
                        if secret.Reshare? then secret.s.originalcommit else Some(group.Commit(secret.Value())), required)
  {
    var coeffs := [secret.Value()];
    for i := 1 to group.sharing.Degree1()
      invariant coeffs == [secret.Value()] + rand[..i - 1]
    {
      coeffs := coeffs + [rand[i - 1]];
    }
    assert coeffs == [secret.Value()] + rand;
    var commits := CommitAll(group, coeffs);
    var original := if secret.Reshare? then secret.s.originalcommit else Some(commits[0]);
    shares := Deal(group, coeffs, commits, original, required);
  }

  method CommitAll(group: Group, coeffs: seq<int>) returns (commits: seq<int>)
    requires group.Valid()
    ensures commits == group.Commits(coeffs)
  {
    BaseInvertible(group);
    commits := [];
    for i := 0 to |coeffs|
      invariant |commits| == i && forall k :: 0 <= k < i ==> commits[k] == group.Commit(coeffs[k])
    {
      var c := CommitTo(group, coeffs[i]);
      commits := commits + [c.value];
    }
  }

  method Deal(group: Group, coeffs: seq<int>, commits: seq<int>, original: Option<int>, required: bool)
    returns (shares: seq<Share>)
    requires group.Valid() && commits == group.Commits(coeffs)
    ensures shares == CommittedShares(group, coeffs, original, required)
  {
    shares := [];
    for i := 0 to group.sharing.parties
      invariant |shares| == i
      invariant forall k :: 0 <= k < i ==> shares[k] == CommittedShares(group, coeffs, original, required)[k]
    {
      var y := P(coeffs, i + 1, group.sharing.modulus);
      shares := shares + [Share(y, i, if required then Some(commits) else None, original)];
    }
  }

  method RandomPolynomialRootAt(group: Group, iq: int, rand: seq<int>) returns (shares: seq<Share>)
    requires group.Valid() && Drawn(rand, group.sharing)
    ensures shares == CommittedShares(group, Reduced(RootPolynomial(rand, iq), group.sharing.modulus), None, true)
  {
    var coeffs := RootCoefficients(rand, iq, group.sharing.modulus);
    var commits := CommitAll(group, coeffs);
    shares := Deal(group, coeffs, commits, None, true);
  }

  // Completeness and soundness of the check

  lemma {:induction false} EvalNonnegative(c: Poly, x: nat)
    requires forall i :: 0 <= i < |c| ==> c[i] >= 0
    ensures Eval(c, x) >= 0
  {
    if c != [] {
      EvalNonnegative(c[1..], x);
    }
  }

  lemma PowerOfCommit(group: Group, c: nat, e: nat)
    requires group.p > 0
    ensures c * e >= 0 && Pow(group.Commit(c), e) % group.p == Pow(group.g, c * e) % group.p
  {
    ModMod(Pow(group.g, c), group.p);
    CongPow(group.Commit(c), Pow(group.g, c), e, group.p);
    PowMul(group.g, c, e);
  }

  /** The reference value commits to the polynomial at x, in the exponent. */
  lemma {:induction false} ReferenceIsPower(group: Group, c: Poly, x: nat, k: nat)
    requires group.p > 1 && k <= |c| && forall i :: 0 <= i < |c| ==> c[i] >= 0
    ensures Eval(c[..k], x) >= 0
    ensures Reference(group.Commits(c), x, group.p, k) == Pow(group.g, Eval(c[..k], x)) % group.p
  {
    EvalNonnegative(c[..k], x);
    if k == 0 {
      SmallMod(1, group.p);
    } else {
      ReferenceIsPower(group, c, x, k - 1);
      var a, e := Eval(c[..k - 1], x), PowNat(x, k - 1);
      assert c[..k] == c[..k - 1] + [c[k - 1]];
      EvalSnoc(c[..k - 1], c[k - 1], x);
      PowerOfCommit(group, c[k - 1], e);
      PowAdd(group.g, a, c[k - 1] * e);
      ModMod(Pow(group.g, a), group.p);
      CongMul(Pow(group.g, a) % group.p, Pow(group.g, a), Pow(group.Commit(c[k - 1]), e),
              Pow(group.g, c[k - 1] * e), group.p);
    }
  }

  /** Exponents count modulo q. */
  lemma ReduceExponent(g: int, e: nat, q: nat, p: int)
    requires p > 1 && q > 0 && Pow(g, q) % p == 1
    ensures Pow(g, e) % p == Pow(g, e % q) % p
  {
    var k, r := e / q, e % q;
    assert k * q >= 0 && e == q * k + r;
    SmallMod(1, p);
    PowMul(g, q, k);
    CongPow(Pow(g, q), 1, k, p);
    PowOne(k);
    PowAdd(g, q * k, r);
    CongMul(Pow(g, q * k), 1, Pow(g, r), Pow(g, r), p);
  }

  lemma BaseNonzero(g: int, q: nat, p: int)
    requires Prime(p) && q > 0 && Pow(g, q) % p == 1
    ensures g % p != 0
  {
    if g % p == 0 {
      CongMul(g, 0, Pow(g, q - 1), Pow(g, q - 1), p);
    }
  }

  /** A base other than 1 has order exactly q. */
  lemma OrderIsQ(g: int, d: nat, q: nat, p: int)
    requires Prime(p) && Prime(q) && Pow(g, q) % p == 1 && Pow(g, d) % p == 1 && d % q != 0
    ensures g % p == 1
  {
    var u := InverseExists(d, q);
    PowMul(g, d, u);
    SmallMod(1, p);
    CongPow(Pow(g, d), 1, u, p);
    PowOne(u);
    ReduceExponent(g, d * u, q, p);
    PowFirst(g);
  }

  lemma CancelPower(g: int, a: nat, b: nat, q: nat, p: int)
    requires Prime(p) && q > 0 && Pow(g, q) % p == 1 && a <= b
    requires Pow(g, a) % p == Pow(g, b) % p
    ensures Pow(g, b - a) % p == 1
  {
    BaseNonzero(g, q, p);
    NonzeroPow(g, a, p);
    PowAdd(g, a, b - a);
    var x, y := Pow(g, a), Pow(g, b - a);
    assert x * y == y * x && 1 * x == x;
    Cancel(y, 1, x, p);
    SmallMod(1, p);
  }

  lemma EqualPowers(g: int, a: nat, b: nat, q: nat, p: int)
    requires Prime(p) && Prime(q) && Pow(g, q) % p == 1 && a <= b
    ensures Pow(g, a) % p == Pow(g, b) % p <==> g % p == 1 || a % q == b % q
  {
    if g % p == 1 {
      SmallMod(1, p);
      CongPow(g, 1, a, p);
      CongPow(g, 1, b, p);
      PowOne(a);
      PowOne(b);
    } else if a % q == b % q {
      ReduceExponent(g, a, q, p);
      ReduceExponent(g, b, q, p);
    } else if Pow(g, a) % p == Pow(g, b) % p {
      CancelPower(g, a, b, q, p);
      CongIsZeroDifference(b, a, q);
      OrderIsQ(g, b - a, q, p);
    }
  }

  /** A base of order q is invertible. */
  lemma BaseInvertible(group: Group)
    requires group.Valid()
    ensures Inverse(group.g, group.p).Some?
  {
    BaseNonzero(group.g, group.sharing.modulus, group.p);
    var w := InverseExists(group.g, group.p);
    SmallMod(1, group.p);
    assert IsInverse(w, group.g, group.p);
  }

  lemma OppositeExponent(k: nat, q: nat)
    requires q > 0
    ensures ((0 - k) % q + k) % q == 0
  {
    ModMod(0 - k, q);
    CongAdd((0 - k) % q, 0 - k, k, k, q);
    SmallMod(0, q);
  }

  /** If two numbers undo the same one modulo p, they agree. */
  lemma BothUndo(a: int, b: int, c: int, p: int)
    requires p > 1 && (a * b) % p == 1 && (b * c) % p == 1
    ensures a % p == c % p
  {
    SmallMod(1, p);
    CongMul(a * b, 1, c, c, p);
    CongMul(a, a, b * c, 1, p);
    assert (a * b) * c == a * (b * c) && 1 * c == c && a * 1 == a;
  }

  lemma InversesUndo(g: int, w: int, k: nat, p: int)
    requires p > 1 && (g * w) % p == 1
    ensures (Pow(g, k) * Pow(w, k)) % p == 1
  {
    SmallMod(1, p);
    PowProduct(g, w, k);
    CongPow(g * w, 1, k, p);
    PowOne(k);
  }

  lemma OppositesUndo(g: int, r: nat, k: nat, q: nat, p: int)
    requires p > 1 && q > 0 && Pow(g, q) % p == 1 && (r + k) % q == 0
    ensures (Pow(g, r) * Pow(g, k)) % p == 1
  {
    SmallMod(1, p);
    ReduceExponent(g, r + k, q, p);
    PowAdd(g, r, k);
  }

  /** Powers of the inverse are powers with the negative exponent, counted modulo q. */
  lemma InversePower(g: int, w: int, k: nat, q: nat, p: int)
    requires p > 1 && q > 0 && Pow(g, q) % p == 1 && (g * w) % p == 1
    ensures Pow(w, k) % p == Pow(g, (0 - k) % q) % p
  {
    var r: nat := (0 - k) % q;
    OppositeExponent(k, q);
    OppositesUndo(g, r, k, q, p);
    InversesUndo(g, w, k, p);
    BothUndo(Pow(g, r), Pow(g, k), Pow(w, k), p);
  }

  /** Committed values count modulo q. */
  lemma CommitModQ(group: Group, v: int)
    requires group.Valid()
    ensures group.Commit(v) == Pow(group.g, v % group.sharing.modulus) % group.p
    ensures group.Commit(v) == group.Commit(v % group.sharing.modulus)
  {
    if v >= 0 {
      ReduceExponent(group.g, v, group.sharing.modulus, group.p);
    } else {
      BaseInvertible(group);
      SmallMod(1, group.p);
      assert 0 - (-v) == v;
      InversePower(group.g, Inverse(group.g, group.p).value, -v, group.sharing.modulus, group.p);
    }
  }

  lemma CommitsModQ(group: Group, c: Poly)
    requires group.Valid()
    ensures group.Commits(c) == group.Commits(Reduced(c, group.sharing.modulus))
  {
    forall i | 0 <= i < |c| ensures group.Commit(c[i]) == group.Commit(c[i] % group.sharing.modulus) {
      CommitModQ(group, c[i]);
    }
  }

  /** With the commitments of c, a share is accepted exactly when it lies on c modulo q;
      only for the degenerate base 1 is everything accepted. */
  lemma AcceptsExactly(group: Group, c: Poly, share: Share)
    requires group.Valid() && share.x >= -1 && share.coeffcommits == Some(group.Commits(c))
    ensures Accepts(group, share) <==>
            group.g % group.p == 1 || share.share % group.sharing.modulus == Eval(c, share.x + 1) % group.sharing.modulus
  {
    var q := group.sharing.modulus;
    var r, v: nat := Reduced(c, q), share.share % q;
    CommitsModQ(group, c);
    CommitModQ(group, share.share);
    ReferenceIsPower(group, r, share.x + 1, |r|);
    assert r[..|r|] == r;
    EqualPowersEitherWay(group.g, Eval(r, share.x + 1), v, q, group.p);
    EvalReduced(c, share.x + 1, q);
    ModMod(share.share, q);
  }

  lemma EqualPowersEitherWay(g: int, a: nat, b: nat, q: nat, p: int)
    requires Prime(p) && Prime(q) && Pow(g, q) % p == 1
    ensures Pow(g, a) % p == Pow(g, b) % p <==> g % p == 1 || a % q == b % q
  {
    if a <= b {
      EqualPowers(g, a, b, q, p);
    } else {
      EqualPowers(g, b, a, q, p);
    }
  }

  /** Every dealt share passes the check. */
  lemma DealtSharesAccepted(group: Group, c: Poly, original: Option<int>, i: nat)
    requires group.Valid() && i < group.sharing.parties
    ensures Accepts(group, CommittedShares(group, c, original, true)[i])
  {
    ModMod(Eval(c, i + 1), group.sharing.modulus);
    AcceptsExactly(group, c, CommittedShares(group, c, original, true)[i]);
  }

  // The Lagrange path of reconstruct (mode 1)

  /** The points assumed for a query: the shares' own at 0, otherwise 1, 2, ... without iq. */
  function AssumedPoints(xs: seq<int>, iq: int): (assumed: seq<int>)
    ensures |assumed| == |xs| && (iq == 0 ==> assumed == xs)
  {
    seq(|xs|, i requires 0 <= i < |xs| =>
      if iq == 0 then xs[i] else if i + 1 < iq then i + 1 else i + 2)
  }

  /** The shares moved to the assumed points. */
  function Relabel(shares: seq<Share>, iq: int): (r: seq<Share>)
    ensures |r| == |shares| && Points(r) == AssumedPoints(Points(shares), iq)
    ensures forall i :: 0 <= i < |r| ==> r[i].share == shares[i].share
  {
    var xs := AssumedPoints(Points(shares), iq);
    var r := seq(|shares|, i requires 0 <= i < |shares| => Share(shares[i].share, xs[i] - 1, None, None));
    assert Points(r) == xs;
    r
  }

  /** Other queries end with an IndexError. */
  predicate Query(iq: int, shares: nat) {
    iq == 0 || 1 <= iq <= shares + 1
  }

  /** None stands for the IndexError. */
  method PointsFor(shares: seq<Share>, iq: int) returns (r: Option<seq<int>>)
    ensures r == if Query(iq, |shares|) then Some(AssumedPoints(Points(shares), iq)) else None
  {
    var xs := [];
    if iq == 0 {
      return Some(Points(shares));
    }
    var j := 0;
    for i := 0 to |shares| + 1
      invariant 0 <= j <= |shares| && |xs| == j
      invariant j == if 1 <= iq <= i then i - 1 else i
      invariant forall k :: 0 <= k < j ==> xs[k] == if 1 <= iq && iq <= k + 1 then k + 2 else k + 1
    {
      if i + 1 != iq {
        if j == |shares| {
          return None;
        }
        xs := xs + [i + 1];
        j := j + 1;
      }
    }
    assert xs == AssumedPoints(Points(shares), iq);
    r := Some(xs);
  }

  /** What mode 1 computes: the shares interpolated at the assumed points. */
  ghost function Outcome(shares: seq<Share>, iq: int, m: int): Option<int>
    requires m > 1
  {
    if Query(iq, |shares|) then Reconstructed(Relabel(shares, iq), iq, m) else None
  }

  /** None stands for IndexError or NoModularInverseError. */
  method ReconstructLagrange(group: Group, shares: seq<Share>, iq: int) returns (r: Option<int>)
    requires group.Valid()
    ensures r == Outcome(shares, iq, group.sharing.modulus)
  {
    var xs := PointsFor(shares, iq);
    if xs.None? {
      return None;
    }
    var coeffs := RecoverCoefficients(xs.value, iq, group.sharing.modulus);
    if coeffs.None? {
      return None;
    }
    var value := WeighValues(coeffs.value, shares, Relabel(shares, iq), group.sharing.modulus);
    r := Some(value);
  }

  /** The weighted sum only looks at the values of the shares. */
  method WeighValues(coeffs: seq<int>, shares: seq<Share>, ghost relabelled: seq<Share>, m: int) returns (value: int)
    requires m > 1 && |coeffs| == |shares| == |relabelled|
    requires forall i :: 0 <= i < |shares| ==> relabelled[i].share == shares[i].share
    ensures value == WeightedSum(coeffs, relabelled, m, |shares|)
  {
    value := 0;
    for i := 0 to |shares|
      invariant value == WeightedSum(coeffs, relabelled, m, i)
    {
      value := Accumulate(value, coeffs[i], shares[i].share, m);
    }
  }

  /** Distinct parties. */
  ghost predicate Holders(group: Group, holders: seq<nat>) {
    && (forall i :: 0 <= i < |holders| ==> holders[i] < group.sharing.parties)
    && forall i, j :: 0 <= i < j < |holders| ==> holders[i] != holders[j]
  }

  /** The shares that some parties were dealt. */
  ghost function Held(shares: seq<Share>, holders: seq<nat>): (held: seq<Share>)
    requires forall i :: 0 <= i < |holders| ==> holders[i] < |shares|
    ensures |held| == |holders| && forall i :: 0 <= i < |held| ==> held[i] == shares[holders[i]]
  {
    seq(|holders|, i requires 0 <= i < |holders| => shares[holders[i]])
  }

  function HeldPoints(holders: seq<nat>): (xs: seq<int>)
    ensures |xs| == |holders| && forall i :: 0 <= i < |xs| ==> xs[i] == holders[i] + 1
  {
    seq(|holders|, i requires 0 <= i < |holders| => holders[i] + 1)
  }

  /** If c has few coefficients and was dealt, these holders reconstruct its value. */
  ghost predicate RightFor(group: Group, original: Option<int>, required: bool, holders: seq<nat>, iq: int, c: Poly)
    requires group.p > 0 && group.sharing.modulus > 1 && Holders(group, holders)
  {
    |c| <= |holders| ==>
      Outcome(Held(CommittedShares(group, c, original, required), holders), iq, group.sharing.modulus) ==
      Some(Eval(c, iq) % group.sharing.modulus)
  }

  /** So it is whatever polynomial was dealt. */
  ghost predicate AlwaysRight(group: Group, original: Option<int>, required: bool, holders: seq<nat>, iq: int)
    requires group.p > 0 && group.sharing.modulus > 1 && Holders(group, holders)
  {
    forall c: Poly :: RightFor(group, original, required, holders, iq, c)
  }

  lemma HoldersDistinct(group: Group, holders: seq<nat>)
    requires group.p > 0 && group.sharing.Valid() && group.sharing.parties <= group.sharing.modulus && Holders(group, holders)
    ensures DistinctMod(HeldPoints(holders), group.sharing.modulus)
  {
    var c: Poly := [];
    var m := group.sharing.modulus;
    var plain := SharesOf(c, group.sharing.parties, m);
    var chosen := Held(plain, holders);
    assert Selected(chosen, plain);
    SelectedPoints(chosen, c, group.sharing.parties, m);
    assert Points(chosen) == HeldPoints(holders);
  }

  /** With weights for the assumed points, the outcome is the weighted sum of the true values. */
  lemma RelabelWeighs(shares: seq<Share>, c: Poly, xs: seq<int>, iq: int, m: int)
    requires m > 1 && Points(shares) == xs
    requires forall i :: 0 <= i < |shares| ==> shares[i].share % m == Eval(c, xs[i]) % m
    ensures var ws := Coefficients(AssumedPoints(xs, iq), iq, m, |xs|);
            Reconstructed(Relabel(shares, iq), iq, m) ==
            if ws.None? then None else Some(WeightedSum(ws.value, Valued(xs, c, m), m, |xs|))
  {
    var ws := Coefficients(AssumedPoints(xs, iq), iq, m, |xs|);
    if ws.Some? {
      forall i | 0 <= i < |xs| ensures Relabel(shares, iq)[i].share % m == Valued(xs, c, m)[i].share % m {
        ModMod(Eval(c, xs[i]), m);
      }
      WeightedSumCong(ws.value, Relabel(shares, iq), Valued(xs, c, m), m, |xs|);
    }
  }

  lemma OutcomeWeighs(group: Group, c: Poly, original: Option<int>, required: bool, holders: seq<nat>, iq: int)
    requires group.p > 0 && group.sharing.modulus > 1 && Holders(group, holders) && Query(iq, |holders|)
    ensures var m, xs := group.sharing.modulus, HeldPoints(holders);
            var ws := Coefficients(AssumedPoints(xs, iq), iq, m, |xs|);
            Outcome(Held(CommittedShares(group, c, original, required), holders), iq, group.sharing.modulus) ==
            if ws.None? then None else Some(WeightedSum(ws.value, Valued(xs, c, m), m, |xs|))
  {
    var m, xs := group.sharing.modulus, HeldPoints(holders);
    var held := Held(CommittedShares(group, c, original, required), holders);
    assert Points(held) == xs;
    forall i | 0 <= i < |held| ensures held[i].share % m == Eval(c, xs[i]) % m {
      ModMod(Eval(c, xs[i]), m);
    }
    RelabelWeighs(held, c, xs, iq, m);
  }

  lemma RightIfWeightsAre(group: Group, original: Option<int>, required: bool, holders: seq<nat>, iq: int, ws: seq<int>)
    requires group.p > 0 && group.sharing.modulus > 1 && Holders(group, holders) && Query(iq, |holders|)
    requires Coefficients(AssumedPoints(HeldPoints(holders), iq), iq, group.sharing.modulus, |holders|) == Some(ws)
    ensures AlwaysRight(group, original, required, holders, iq) <==>
            Interpolates(HeldPoints(holders), ws, iq, group.sharing.modulus)
  {
    forall c: Poly
      ensures RightFor(group, original, required, holders, iq, c) <==>
              GivesValue(HeldPoints(holders), ws, c, iq, group.sharing.modulus)
    {
      OutcomeWeighs(group, c, original, required, holders, iq);
    }
  }

  lemma NeverRight(group: Group, original: Option<int>, required: bool, holders: seq<nat>, iq: int)
    requires group.p > 0 && group.sharing.modulus > 1 && Holders(group, holders)
    requires Query(iq, |holders|) ==>
               Coefficients(AssumedPoints(HeldPoints(holders), iq), iq, group.sharing.modulus, |holders|).None?
    ensures !AlwaysRight(group, original, required, holders, iq)
  {
    var c: Poly := [];
    if Query(iq, |holders|) {
      OutcomeWeighs(group, c, original, required, holders, iq);
    }
    assert !RightFor(group, original, required, holders, iq, c);
  }

  /** The outcome is right for every polynomial exactly if the query is allowed and the assumed
      points have the same Lagrange coefficients as those at which the shares are held. */
  lemma LagrangeExactly(group: Group, original: Option<int>, required: bool, holders: seq<nat>, iq: int)
    requires group.p > 0 && group.sharing.Valid() && group.sharing.parties <= group.sharing.modulus && Holders(group, holders)
    ensures var m, xs := group.sharing.modulus, HeldPoints(holders);
            AlwaysRight(group, original, required, holders, iq) <==>
            Query(iq, |holders|) && Coefficients(AssumedPoints(xs, iq), iq, m, |xs|) == Coefficients(xs, iq, m, |xs|)
  {
    var m, xs := group.sharing.modulus, HeldPoints(holders);
    var ws := Coefficients(AssumedPoints(xs, iq), iq, m, |xs|);
    HoldersDistinct(group, holders);
    DistinctCoefficients(xs, iq, m);
    if Query(iq, |holders|) && ws.Some? {
      OnlyLagrangeWeights(xs, ws.value, iq, m);
      RightIfWeightsAre(group, original, required, holders, iq, ws.value);
    } else {
      NeverRight(group, original, required, holders, iq);
    }
  }

  /** In particular at 0, where the secret comes back, and for the assumed parties. */
  lemma LagrangeReconstructs(group: Group, c: Poly, original: Option<int>, required: bool, holders: seq<nat>, iq: int)
    requires group.p > 0 && group.sharing.Valid() && group.sharing.parties <= group.sharing.modulus && Holders(group, holders)
    requires |c| <= |holders|
    requires iq != 0 ==> Query(iq, |holders|) && HeldPoints(holders) == AssumedPoints(HeldPoints(holders), iq)
    ensures Outcome(Held(CommittedShares(group, c, original, required), holders), iq, group.sharing.modulus) ==
            Some(Eval(c, iq) % group.sharing.modulus)
  {
    LagrangeExactly(group, original, required, holders, iq);
    assert HeldPoints(holders) == AssumedPoints(HeldPoints(holders), iq);
    assert RightFor(group, original, required, holders, iq, c);
  }

  lemma PairFirst(xs: seq<int>, w: int, z: int, m: int)
    requires m > 1 && |xs| == 2 && xs[0] != xs[1] && IsInverse(w, xs[0] - xs[1], m)
    ensures Coefficient(xs, xs[0], z, m, 2) == Some(((z - xs[1]) * w) % m)
  {
    InverseIs(w, xs[0] - xs[1], m);
    assert Coefficient(xs, xs[0], z, m, 1) == Some(1);
    assert (1 * (z - xs[1])) * w == (z - xs[1]) * w;
  }

  lemma PairSecond(xs: seq<int>, v: int, z: int, m: int)
    requires m > 1 && |xs| == 2 && xs[0] != xs[1] && IsInverse(v, xs[1] - xs[0], m)
    ensures Coefficient(xs, xs[1], z, m, 2) == Some(((z - xs[0]) * v) % m)
  {
    InverseIs(v, xs[1] - xs[0], m);
    assert Coefficient(xs, xs[1], z, m, 0) == Some(1);
    assert (1 * (z - xs[0])) * v == (z - xs[0]) * v;
    assert Coefficient(xs, xs[1], z, m, 1) == Some(((z - xs[0]) * v) % m);
  }

  /** The coefficients of two points, from the inverses of their differences. */
  lemma PairCoefficients(xs: seq<int>, w: int, v: int, z: int, m: int, a: int, b: int)
    requires m > 1 && |xs| == 2 && xs[0] != xs[1]
    requires IsInverse(w, xs[0] - xs[1], m) && IsInverse(v, xs[1] - xs[0], m)
    requires a == ((z - xs[1]) * w) % m && b == ((z - xs[0]) * v) % m
    ensures Coefficients(xs, z, m, |xs|) == Some([a, b])
  {
    PairFirst(xs, w, z, m);
    PairSecond(xs, v, z, m);
    CoefficientsAre(xs, [a, b], z, m, |xs|);
    assert [a, b][..2] == [a, b];
  }

  lemma {:induction false} CoefficientsAre(xs: seq<int>, ws: seq<int>, z: int, m: int, k: nat)
    requires m > 1 && k <= |xs| == |ws|
    requires forall i :: 0 <= i < |xs| ==> Coefficient(xs, xs[i], z, m, |xs|) == Some(ws[i])
    ensures Coefficients(xs, z, m, k) == Some(ws[..k])
  {
    if k > 0 {
      CoefficientsAre(xs, ws, z, m, k - 1);
      assert ws[..k] == ws[..k - 1] + [ws[k - 1]];
    }
  }

  lemma MisleadingWeights(assumed: seq<int>, iq: int, m: int)
    requires m == 7 && iq == 2 && |assumed| == 2 && assumed[0] == 1 && assumed[1] == 3
    ensures Coefficients(assumed, iq, m, |assumed|) == Some([4, 4])
  {
    PairCoefficients(assumed, 3, 4, iq, m, 4, 4);
  }

  /** Modulo 7, parties 0 and 3 hold points 1 and 4. For the query 2 points 1 and 3 are assumed, and
      the shares of X, 1 and 4, give 6 instead of 2. */
  lemma OtherPartiesMislead(group: Group, original: Option<int>, required: bool, c: Poly, holders: seq<nat>, iq: int, m: int)
    requires group.p > 0 && group.sharing.modulus == m == 7 && group.sharing.parties >= 4
    requires c == [0, 1] && holders == [0, 3] && iq == 2
    ensures Outcome(Held(CommittedShares(group, c, original, required), holders), iq, m) == Some(6)
    ensures Eval(c, iq) % m == 2
  {
    var xs := HeldPoints(holders);
    var shares := Valued(xs, c, m);
    MisleadingWeights(AssumedPoints(xs, iq), iq, m);
    OutcomeWeighs(group, c, original, required, holders, iq);
    EvalLine(c, 1);
    EvalLine(c, 4);
    EvalLine(c, iq);
    assert shares[0].share == 1 && shares[1].share == 4;
    TwoTerms(4, 4, shares, m);
    assert WeightedSum([4, 4], shares, m, |xs|) == 6;
  }

  lemma AgreeingWeights(assumed: seq<int>, xs: seq<int>, iq: int, m: int)
    requires m == 7 && iq == 3 && |assumed| == |xs| == 2
    requires assumed[0] == 1 && assumed[1] == 2 && xs[0] == 5 && xs[1] == 4
    ensures Coefficients(assumed, iq, m, |assumed|) == Coefficients(xs, iq, m, |xs|)
  {
    PairCoefficients(assumed, 6, 1, iq, m, 6, 2);
    PairCoefficients(xs, 1, 6, iq, m, 6, 2);
  }

  /** Modulo 7, parties 4 and 3 hold points 5 and 4. For the query 3 points 1 and 2 are assumed, and
      every line is reconstructed all the same. */
  lemma OtherPartiesAgree(group: Group, original: Option<int>, required: bool, holders: seq<nat>, iq: int, m: int)
    requires group.p > 0 && group.sharing.Valid() && group.sharing.modulus == m == 7 && 5 <= group.sharing.parties <= 7
    requires holders == [4, 3] && iq == 3
    ensures AssumedPoints(HeldPoints(holders), iq) != HeldPoints(holders)
    ensures AlwaysRight(group, original, required, holders, iq)
  {
    var xs := HeldPoints(holders);
    assert AssumedPoints(xs, iq)[0] == 1;
    AgreeingWeights(AssumedPoints(xs, iq), xs, iq, m);
    LagrangeExactly(group, original, required, holders, iq);
  }

  lemma TwoTerms(w: int, v: int, shares: seq<Share>, m: int)
    requires m > 1 && |shares| == 2
    ensures WeightedSum([w, v], shares, m, 2) == (w * shares[0].share + v * shares[1].share) % m
  {
    var first := w * shares[0].share;
    assert WeightedSum([w, v], shares, m, 1) == (0 + first) % m;
    ModMod(first, m);
    CongAdd(first % m, first, v * shares[1].share, v * shares[1].share, m);
  }

  lemma EvalLine(c: Poly, x: int)
    requires |c| == 2
    ensures Eval(c, x) == c[0] + x * c[1]
  {
    assert Eval(c[1..], x) == c[1] + x * Eval(c[1..][1..], x);
  }

  // Shares of shares

  /** The same coefficients as at 0, with both differences turned round. */
  lemma TurnedRound(r: int, i: int, j: int, m: int)
    requires Prime(m)
    ensures Inverse(j - i, m).Some? <==> Inverse(i - j, m).Some?
    ensures Inverse(j - i, m).Some? ==>
              (r * j * Inverse(j - i, m).value) % m == (r * (0 - j) * Inverse(i - j, m).value) % m
  {
    DifferenceInvertible(i, j, m);
    DifferenceInvertible(j, i, m);
    if Inverse(j - i, m).Some? {
      var w, v := Inverse(j - i, m).value, Inverse(i - j, m).value;
      assert (j - i) * (-v) == (i - j) * v;
      InverseUnique(j - i, w, -v, m);
      CongMul(r * j, r * j, w, -v, m);
      assert (r * j) * (-v) == r * (0 - j) * v by {
        assert (r * j) * (-v) == -((r * j) * v);
        assert r * (0 - j) == -(r * j);
        assert (-(r * j)) * v == -((r * j) * v);
      }
    }
  }

  /** None stands for NoModularInverseError. */
  method RecoverDoubleShareCoefficients(xs: seq<int>, m: int) returns (r: Option<seq<int>>)
    requires Prime(m)
    ensures r == Coefficients(xs, 0, m, |xs|)
  {
    var coeffs := [];
    for i := 0 to |xs|
      invariant Coefficients(xs, 0, m, i) == Some(coeffs)
    {
      var result := 1;
      for j := 0 to |xs|
        invariant Coefficient(xs, xs[i], 0, m, j) == Some(result)
      {
        if xs[i] != xs[j] {
          TurnedRound(result, xs[i], xs[j], m);
          var w := ModInv(xs[j] - xs[i], m);
          if w.None? {
            NoneStays(xs, xs[i], 0, m, j + 1);
            return None;
          }
          result := (result * xs[j] * w.value) % m;
        }
      }
      coeffs := coeffs + [result];
    }
    r := Some(coeffs);
  }

  /** The product of the first k commitments raised to the coefficients. */
  function Combined(firsts: seq<int>, coeffs: seq<int>, p: int, k: nat): (c: int)
    requires p > 1 && k <= |firsts| && k <= |coeffs| && forall i :: 0 <= i < |coeffs| ==> coeffs[i] >= 0
    ensures 0 <= c < p
  {
    if k == 0 then 1 else (Combined(firsts, coeffs, p, k - 1) * PowMod(firsts[k - 1], coeffs[k - 1], p)) % p
  }

  function PartyPoints(n: nat): (xs: seq<int>)
    ensures |xs| == n && forall i :: 0 <= i < n ==> xs[i] == i + 1
  {
    seq(n, i => i + 1)
  }

  /** firsts holds each share's commitment to its first coefficient. None stands for
      NoModularInverseError, and for the IndexError without shares. */
  method VerifyDoubleShares(group: Group, firsts: seq<int>, original: int) returns (r: Option<bool>)
    requires group.Valid()
    ensures var coeffs := Coefficients(PartyPoints(|firsts|), 0, group.sharing.modulus, |firsts|);
            r == if firsts == [] || coeffs.None? then None
                 else Some(Combined(firsts, coeffs.value, group.p, |firsts|) == original)
  {
    if firsts == [] {
      return None;
    }
    var coeffs := RecoverDoubleShareCoefficients(PartyPoints(|firsts|), group.sharing.modulus);
    if coeffs.None? {
      return None;
    }
    var test := 1;
    for i := 0 to |firsts|
      invariant test == Combined(firsts, coeffs.value, group.p, i)
    {
      test := (test * PowMod(firsts[i], coeffs.value[i], group.p)) % group.p;
    }
    r := Some(test == original);
  }

  /** The exponent behind the combined commitments. */
  function Exponent(values: seq<nat>, coeffs: seq<int>, k: nat): nat
    requires k <= |values| && k <= |coeffs| && forall i :: 0 <= i < |coeffs| ==> coeffs[i] >= 0
  {
    if k == 0 then 0 else
      var c: nat := coeffs[k - 1];
      Exponent(values, coeffs, k - 1) + values[k - 1] * c
  }

  lemma {:induction false} CombinedIsPower(group: Group, values: seq<nat>, coeffs: seq<int>, k: nat)
    requires group.p > 1 && k <= |values| == |coeffs| && forall i :: 0 <= i < |coeffs| ==> coeffs[i] >= 0
    ensures Combined(group.Commits(values), coeffs, group.p, k) == Pow(group.g, Exponent(values, coeffs, k)) % group.p
  {
    if k == 0 {
      SmallMod(1, group.p);
    } else {
      CombinedIsPower(group, values, coeffs, k - 1);
      var e := Exponent(values, coeffs, k - 1);
      PowerOfCommit(group, values[k - 1], coeffs[k - 1]);
      PowAdd(group.g, e, values[k - 1] * coeffs[k - 1]);
      ModMod(Pow(group.g, e), group.p);
      ModMod(Pow(group.Commit(values[k - 1]), coeffs[k - 1]), group.p);
      CongMul(Pow(group.g, e) % group.p, Pow(group.g, e), PowMod(group.Commit(values[k - 1]), coeffs[k - 1], group.p),
              Pow(group.g, values[k - 1] * coeffs[k - 1]), group.p);
    }
  }

  lemma {:induction false} ExponentIsSum(values: seq<nat>, coeffs: seq<int>, shares: seq<Share>, m: int, k: nat)
    requires m > 1 && k <= |values| == |coeffs| == |shares| && forall i :: 0 <= i < |coeffs| ==> coeffs[i] >= 0
    requires forall i :: 0 <= i < |shares| ==> shares[i].share == values[i]
    ensures Exponent(values, coeffs, k) % m == WeightedSum(coeffs, shares, m, k)
  {
    if k > 0 {
      ExponentIsSum(values, coeffs, shares, m, k - 1);
      var e, c, y := Exponent(values, coeffs, k - 1), coeffs[k - 1], values[k - 1];
      ModMod(e, m);
      CongAdd(WeightedSum(coeffs, shares, m, k - 1), e, c * y, y * c, m);
    } else {
      SmallMod(0, m);
    }
  }

  function AtParties(values: seq<int>): (shares: seq<Share>)
    ensures |shares| == |values|
    ensures forall i :: 0 <= i < |shares| ==> shares[i] == Share(values[i], i, None, None)
  {
    seq(|values|, i requires 0 <= i < |values| => Share(values[i], i, None, None))
  }

  lemma ReducedValues(values: seq<int>, coeffs: seq<int>, m: int)
    requires m > 1 && |coeffs| == |values|
    ensures WeightedSum(coeffs, AtParties(values), m, |values|) == WeightedSum(coeffs, AtParties(Reduced(values, m)), m, |values|)
  {
    forall i | 0 <= i < |values| ensures AtParties(values)[i].share % m == AtParties(Reduced(values, m))[i].share % m {
      ModMod(values[i], m);
    }
    WeightedSumCong(coeffs, AtParties(values), AtParties(Reduced(values, m)), m, |values|);
  }

  /** The combined commitments are a power whose exponent is the weighted sum of the values. */
  lemma CombinedExponent(group: Group, values: seq<int>, coeffs: seq<int>) returns (e: nat)
    requires group.Valid() && |coeffs| == |values| && forall i :: 0 <= i < |coeffs| ==> coeffs[i] >= 0
    ensures Combined(group.Commits(values), coeffs, group.p, |values|) == Pow(group.g, e) % group.p
    ensures e % group.sharing.modulus == WeightedSum(coeffs, AtParties(values), group.sharing.modulus, |values|)
  {
    var m := group.sharing.modulus;
    var residues: seq<nat> := Reduced(values, m);
    CommitsModQ(group, values);
    CombinedIsPower(group, residues, coeffs, |values|);
    ExponentIsSum(residues, coeffs, AtParties(residues), m, |values|);
    ReducedValues(values, coeffs, m);
    e := Exponent(residues, coeffs, |values|);
  }

  lemma PartiesReconstruct(values: seq<int>, m: int)
    requires Prime(m) && |values| <= m
    ensures Coefficients(PartyPoints(|values|), 0, m, |values|).Some?
    ensures Reconstructed(AtParties(values), 0, m) ==
            Some(WeightedSum(Coefficients(PartyPoints(|values|), 0, m, |values|).value, AtParties(values), m, |values|))
  {
    assert Points(AtParties(values)) == PartyPoints(|values|);
    PartyPointsDistinct(AtParties(values), m);
  }

  /** The re-shared values of all parties pass exactly when they reconstruct, modulo q, the value
      the original commitment is to; only for the base 1 does everything pass. */
  lemma DoubleSharesExactly(group: Group, values: seq<int>, value: int)
    requires group.Valid() && |values| <= group.sharing.modulus
    ensures var m := group.sharing.modulus;
            var coeffs := Coefficients(PartyPoints(|values|), 0, m, |values|);
            coeffs.Some? && Reconstructed(AtParties(values), 0, m).Some? &&
            (Combined(group.Commits(values), coeffs.value, group.p, |values|) == group.Commit(value) <==>
             group.g % group.p == 1 || value % m == Reconstructed(AtParties(values), 0, m).value)
  {
    var m, v: nat := group.sharing.modulus, value % group.sharing.modulus;
    PartiesReconstruct(values, m);
    var e := CombinedExponent(group, values, Coefficients(PartyPoints(|values|), 0, m, |values|).value);
    CommitModQ(group, value);
    EqualPowersEitherWay(group.g, e, v, m, group.p);
    ModMod(value, m);
  }

  lemma PartyPointsDistinct(shares: seq<Share>, m: int)
    requires Prime(m) && |shares| <= m && Points(shares) == PartyPoints(|shares|)
    ensures Reconstructed(shares, 0, m).Some?
  {
    ReconstructFails(shares, 0, m);
    forall i, j | 0 <= i < |shares| && 0 <= j < |shares| ensures !Collide(Points(shares), i, j, m) {
      var lo, hi := if i < j then i else j, if i < j then j else i;
      CongIsZeroDifference(hi + 1, lo + 1, m);
      SmallMod(hi - lo, m);
    }
  }
}
