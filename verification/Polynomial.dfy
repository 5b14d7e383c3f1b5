/** Polynomials over GF(256), lowest coefficient first, and Lagrange interpolation through points
    with distinct x values. */
module Polynomial {
  import opened ByteArrays
  import opened GF256

  type Poly = seq<bv8>

  datatype Point = Point(x: bv8, y: bv8)

  /** Horner's rule, in the order the share loop runs it. */
  function Eval(c: Poly, x: bv8): bv8 {
    if c == [] then 0 else Add(Mul(Eval(c[1..], x), x), c[0])
  }

  function AddPoly(c: Poly, d: Poly): (s: Poly)
    requires |c| == |d|
    ensures |s| == |c|
  {
    if c == [] then [] else [Add(c[0], d[0])] + AddPoly(c[1..], d[1..])
  }

  function Scale(k: bv8, c: Poly): (s: Poly)
    ensures |s| == |c|
  {
    if c == [] then [] else [Mul(k, c[0])] + Scale(k, c[1..])
  }

  /** The coefficients of (X + r) * c. */
  function TimesRoot(c: Poly, r: bv8): (s: Poly)
    ensures |s| == |c| + 1
  {
    AddPoly([0] + c, Scale(r, c) + [0])
  }

  /** Division by X + r; Eval(c, r) is the remainder. */
  function Quotient(c: Poly, r: bv8): (q: Poly)
    ensures |q| == if c == [] then 0 else |c| - 1
  {
    if |c| <= 1 then [] else [Eval(c[1..], r)] + Quotient(c[1..], r)
  }

  lemma {:induction false} EvalAddPoly(c: Poly, d: Poly, x: bv8)
    requires |c| == |d|
    ensures Eval(AddPoly(c, d), x) == Add(Eval(c, x), Eval(d, x))
  {
    hide Add, Mul;
    if c == [] {
      AddLaws(0, 0, 0);
    } else {
      EvalAddPoly(c[1..], d[1..], x);
      var e, f := Eval(c[1..], x), Eval(d[1..], x);
      MulAddLeft(e, f, x);
      AddSwap(Mul(e, x), Mul(f, x), c[0], d[0]);
      assert AddPoly(c, d)[1..] == AddPoly(c[1..], d[1..]);
    }
  }

  lemma {:induction false} EvalScale(k: bv8, c: Poly, x: bv8)
    ensures Eval(Scale(k, c), x) == Mul(k, Eval(c, x))
  {
    hide Add, Mul;
    if c == [] {
      MulOneZero(k);
    } else {
      EvalScale(k, c[1..], x);
      var e := Eval(c[1..], x);
      MulAddRight(k, Mul(e, x), c[0]);
      MulAssoc(k, e, x);
      assert Scale(k, c)[1..] == Scale(k, c[1..]);
    }
  }

  lemma {:induction false} EvalTrailingZero(c: Poly, x: bv8)
    ensures Eval(c + [0], x) == Eval(c, x)
  {
    hide Add, Mul;
    if c == [] {
      MulOneZero(x);
      AddLaws(0, 0, 0);
      assert ([] + [0])[1..] == [];
    } else {
      EvalTrailingZero(c[1..], x);
      assert (c + [0])[1..] == c[1..] + [0];
    }
  }

  lemma EvalTimesRoot(c: Poly, r: bv8, x: bv8)
    ensures Eval(TimesRoot(c, r), x) == Mul(Eval(c, x), Add(x, r))
  {
    hide Add, Mul, AddPoly, Scale;
    var e := Eval(c, x);
    EvalAddPoly([0] + c, Scale(r, c) + [0], x);
    EvalTrailingZero(Scale(r, c), x);
    EvalScale(r, c, x);
    assert ([0] + c)[1..] == c;
    AddLaws(Mul(e, x), 0, 0);
    MulComm(r, e);
    MulAddRight(e, x, r);
  }

  lemma {:induction false} EvalQuotient(c: Poly, r: bv8, x: bv8)
    ensures Eval(c, x) == Add(Eval(c, r), Mul(Eval(Quotient(c, r), x), Add(x, r)))
  {
    hide Add, Mul;
    var d := Add(x, r);
    MulOneZero(d);
    if |c| <= 1 {
      AddLaws(Eval(c, r), 0, 0);
      if c != [] {
        MulOneZero(x);
        MulOneZero(r);
      }
    } else {
      var t := c[1..];
      EvalQuotient(t, r, x);
      assert Quotient(c, r)[1..] == Quotient(t, r);
      HornerStep(Eval(t, x), Eval(t, r), Eval(Quotient(t, r), x), x, r, c[0]);
    }
  }

  /** (a + q d) x + k == (a r + k) + (q x + a) d for d = x + r. */
  lemma HornerStep(tx: bv8, a: bv8, q: bv8, x: bv8, r: bv8, k: bv8)
    requires tx == Add(a, Mul(q, Add(x, r)))
    ensures Add(Mul(tx, x), k) == Add(Add(Mul(a, r), k), Mul(Add(Mul(q, x), a), Add(x, r)))
  {
    hide *;
    var d := Add(x, r);
    MulAddLeft(a, Mul(q, d), x);
    MulAddLeft(Mul(q, x), a, d);
    MulAddRight(a, x, r);
    MulAssoc(q, d, x);
    MulComm(d, x);
    MulAssoc(q, x, d);
    var ax, ar, m := Mul(a, x), Mul(a, r), Mul(Mul(q, x), d);
    AddLaws(ax, m, k);
    AddLaws(m, k, ax);
    AddLaws(Add(ar, k), Add(m, Add(ax, ar)), 0);
    assert Add(Mul(tx, x), k) == Add(Add(ax, m), k);
    calc {
      Add(Add(ar, k), Add(m, Add(ax, ar)));
      { AddLaws(m, Add(ax, ar), 0); AddLaws(ax, ar, m); }
      Add(Add(ar, k), Add(ax, Add(ar, m)));
      { AddLaws(ax, Add(ar, m), 0); AddLaws(ar, m, ax); AddLaws(ar, Add(m, ax), 0); AddSwap(ar, k, ar, Add(m, ax)); }
      Add(Add(ar, ar), Add(k, Add(m, ax)));
      { AddLaws(ar, ar, 0); AddLaws(0, Add(k, Add(m, ax)), 0); AddLaws(Add(k, Add(m, ax)), 0, 0); }
      Add(k, Add(m, ax));
      { AddLaws(m, ax, 0); AddLaws(k, Add(ax, m), 0); }
      Add(Add(ax, m), k);
    }
  }

  // ----- a polynomial with fewer coefficients than roots is zero

  predicate Distinct(xs: seq<bv8>) {
    forall i, j | 0 <= i < j < |xs| :: xs[i] != xs[j]
  }

  ghost predicate VanishesOn(c: Poly, xs: seq<bv8>) {
    forall i | 0 <= i < |xs| :: Eval(c, xs[i]) == 0
  }

  lemma QuotientVanishes(c: Poly, xs: seq<bv8>)
    requires xs != [] && Distinct(xs) && VanishesOn(c, xs)
    ensures VanishesOn(Quotient(c, xs[0]), xs[1..])
  {
    hide Add, Mul, Eval, Quotient;
    var r := xs[0];
    forall i | 0 <= i < |xs[1..]| ensures Eval(Quotient(c, r), xs[1..][i]) == 0 {
      var x, q := xs[i + 1], Eval(Quotient(c, r), xs[i + 1]);
      EvalQuotient(c, r, x);
      AddLaws(Mul(q, Add(x, r)), 0, 0);
      AddLaws(x, r, 0);
      NoZeroDivisors(q, Add(x, r));
    }
  }

  lemma {:induction false} ZeroQuotient(c: Poly, r: bv8)
    requires Eval(c, r) == 0 && Quotient(c, r) == Zeros(|Quotient(c, r)|)
    ensures c == Zeros(|c|)
  {
    hide Add, Mul;
    if |c| == 1 {
      MulOneZero(r);
      AddLaws(c[0], 0, 0);
    } else if |c| > 1 {
      var q := Quotient(c, r);
      assert q[0] == 0 && q[1..] == Quotient(c[1..], r) == Zeros(|q| - 1);
      ZeroQuotient(c[1..], r);
      MulOneZero(r);
      AddLaws(c[0], 0, 0);
    }
  }

  lemma {:induction false} TooManyRoots(c: Poly, xs: seq<bv8>)
    requires Distinct(xs) && VanishesOn(c, xs) && |c| <= |xs|
    ensures c == Zeros(|c|)
    decreases |xs|
  {
    hide Add, Mul, Eval, Quotient;
    if c != [] {
      QuotientVanishes(c, xs);
      TooManyRoots(Quotient(c, xs[0]), xs[1..]);
      ZeroQuotient(c, xs[0]);
    }
  }

  lemma {:induction false} SumIsZero(c: Poly, d: Poly)
    requires |c| == |d| && AddPoly(c, d) == Zeros(|c|)
    ensures c == d
  {
    if c != [] {
      hide Add;
      AddLaws(c[0], d[0], 0);
      assert AddPoly(c, d)[0] == 0 && AddPoly(c, d)[1..] == AddPoly(c[1..], d[1..]) == Zeros(|c| - 1);
      SumIsZero(c[1..], d[1..]);
      assert c == [c[0]] + c[1..] && d == [d[0]] + d[1..];
    }
  }

  /** Interpolation is unique: agreeing on as many distinct points as there are coefficients. */
  lemma AgreementIsEquality(c: Poly, d: Poly, xs: seq<bv8>)
    requires |c| == |d| <= |xs| && Distinct(xs)
    requires forall i | 0 <= i < |xs| :: Eval(c, xs[i]) == Eval(d, xs[i])
    ensures c == d
  {
    hide Add, Mul, Eval, AddPoly;
    forall i | 0 <= i < |xs| ensures Eval(AddPoly(c, d), xs[i]) == 0 {
      EvalAddPoly(c, d, xs[i]);
      AddLaws(Eval(c, xs[i]), Eval(d, xs[i]), 0);
    }
    TooManyRoots(AddPoly(c, d), xs);
    SumIsZero(c, d);
  }

  // ----- the Lagrange form

  function Xs(ps: seq<Point>): (xs: seq<bv8>)
    ensures |xs| == |ps|
  {
    seq(|ps|, i requires 0 <= i < |ps| => ps[i].x)
  }

  /** The product of (x + xs[j]) over j below n, j other than i, in loop order. */
  function ProductExcept(xs: seq<bv8>, i: nat, x: bv8, n: nat): bv8
    requires n <= |xs|
  {
    if n == 0 then 1
    else if n - 1 == i then ProductExcept(xs, i, x, n - 1)
    else Mul(ProductExcept(xs, i, x, n - 1), Add(x, xs[n - 1]))
  }

  function Denominator(xs: seq<bv8>, i: nat): bv8
    requires i < |xs|
  {
    ProductExcept(xs, i, xs[i], |xs|)
  }

  /** The factor y_i is multiplied by when interpolating at x. */
  function Weight(xs: seq<bv8>, i: nat, x: bv8): bv8
    requires i < |xs|
  {
    Mul(ProductExcept(xs, i, x, |xs|), Inv(Denominator(xs, i)))
  }

  /** The sum of y_i * Weight_i(x) over i below n. */
  function LagrangeSum(ps: seq<Point>, x: bv8, n: nat): bv8
    requires n <= |ps|
  {
    if n == 0 then 0
    else Add(LagrangeSum(ps, x, n - 1), Mul(ps[n - 1].y, Weight(Xs(ps), n - 1, x)))
  }

  /** ProductExcept as a polynomial in x. */
  function ProductPoly(xs: seq<bv8>, i: nat, n: nat): (c: Poly)
    requires n <= |xs|
    ensures |c| == if i < n then n else n + 1
  {
    if n == 0 then [1]
    else if n - 1 == i then ProductPoly(xs, i, n - 1)
    else TimesRoot(ProductPoly(xs, i, n - 1), xs[n - 1])
  }

  function TermPoly(ps: seq<Point>, i: nat): (c: Poly)
    requires i < |ps|
    ensures |c| == |ps|
  {
    Scale(Mul(ps[i].y, Inv(Denominator(Xs(ps), i))), ProductPoly(Xs(ps), i, |ps|))
  }

  /** LagrangeSum as a polynomial in x, with one coefficient per point. */
  function LagrangePoly(ps: seq<Point>, n: nat): (c: Poly)
    requires n <= |ps|
    ensures |c| == |ps|
  {
    if n == 0 then Zeros(|ps|) else AddPoly(LagrangePoly(ps, n - 1), TermPoly(ps, n - 1))
  }

  lemma {:induction false} EvalZeros(n: nat, x: bv8)
    ensures Eval(Zeros(n), x) == 0
  {
    hide Add, Mul;
    if n > 0 {
      EvalZeros(n - 1, x);
      assert Zeros(n)[1..] == Zeros(n - 1);
      MulOneZero(x);
      AddLaws(0, 0, 0);
    }
  }

  lemma {:induction false} EvalProductPoly(xs: seq<bv8>, i: nat, n: nat, x: bv8)
    requires n <= |xs|
    ensures Eval(ProductPoly(xs, i, n), x) == ProductExcept(xs, i, x, n)
  {
    hide Add, Mul, TimesRoot;
    if n == 0 {
      MulOneZero(x);
      AddLaws(1, 0, 0);
      assert ProductPoly(xs, i, 0)[1..] == [];
    } else {
      EvalProductPoly(xs, i, n - 1, x);
      EvalTimesRoot(ProductPoly(xs, i, n - 1), xs[n - 1], x);
    }
  }

  lemma EvalTermPoly(ps: seq<Point>, i: nat, x: bv8)
    requires i < |ps|
    ensures Eval(TermPoly(ps, i), x) == Mul(ps[i].y, Weight(Xs(ps), i, x))
  {
    hide Add, Mul, Inv, Scale, ProductPoly, ProductExcept, Eval;
    var inv, p := Inv(Denominator(Xs(ps), i)), ProductExcept(Xs(ps), i, x, |ps|);
    EvalScale(Mul(ps[i].y, inv), ProductPoly(Xs(ps), i, |ps|), x);
    EvalProductPoly(Xs(ps), i, |ps|, x);
    MulAssoc(ps[i].y, inv, p);
    MulComm(inv, p);
  }

  lemma {:induction false} EvalLagrangePoly(ps: seq<Point>, n: nat, x: bv8)
    requires n <= |ps|
    ensures Eval(LagrangePoly(ps, n), x) == LagrangeSum(ps, x, n)
  {
    hide Add, Mul, TermPoly, Weight, Eval, AddPoly;
    if n == 0 {
      EvalZeros(|ps|, x);
    } else {
      EvalLagrangePoly(ps, n - 1, x);
      EvalTermPoly(ps, n - 1, x);
      EvalAddPoly(LagrangePoly(ps, n - 1), TermPoly(ps, n - 1), x);
    }
  }

  // ----- the Lagrange form passes through its points

  lemma {:induction false} ProductNonZero(xs: seq<bv8>, i: nat, x: bv8, n: nat)
    requires n <= |xs|
    ensures ProductExcept(xs, i, x, n) != 0 <==> forall j | 0 <= j < n && j != i :: xs[j] != x
  {
    hide Add, Mul;
    if n > 0 {
      ProductNonZero(xs, i, x, n - 1);
      if n - 1 != i {
        NoZeroDivisors(ProductExcept(xs, i, x, n - 1), Add(x, xs[n - 1]));
        AddLaws(x, xs[n - 1], 0);
      }
    }
  }

  /** Weight_i is 1 at its own point and 0 at every other. */
  lemma WeightAtPoint(xs: seq<bv8>, i: nat, k: nat)
    requires i < |xs| && k < |xs| && Distinct(xs)
    ensures Weight(xs, i, xs[k]) == if i == k then 1 else 0
  {
    hide Add, Mul, Inv, ProductExcept;
    ProductNonZero(xs, i, xs[k], |xs|);
    ProductNonZero(xs, i, xs[i], |xs|);
    if i == k {
      MulInverse(Denominator(xs, i));
    } else {
      MulOneZero(Inv(Denominator(xs, i)));
    }
  }

  lemma {:induction false} LagrangeSumAtPoint(ps: seq<Point>, k: nat, n: nat)
    requires n <= |ps| && k < |ps| && Distinct(Xs(ps))
    ensures LagrangeSum(ps, ps[k].x, n) == if k < n then ps[k].y else 0
  {
    hide Add, Mul, Weight;
    if n > 0 {
      LagrangeSumAtPoint(ps, k, n - 1);
      WeightAtPoint(Xs(ps), n - 1, k);
      assert Xs(ps)[k] == ps[k].x;
      MulOneZero(ps[n - 1].y);
      AddLaws(ps[n - 1].y, 0, 0);
      AddLaws(LagrangeSum(ps, ps[k].x, n - 1), 0, 0);
    }
  }

  /** Through any points with distinct x there is a polynomial with one coefficient per point. */
  lemma Interpolates(ps: seq<Point>, k: nat)
    requires k < |ps| && Distinct(Xs(ps))
    ensures Eval(LagrangePoly(ps, |ps|), ps[k].x) == ps[k].y
  {
    EvalLagrangePoly(ps, |ps|, ps[k].x);
    LagrangeSumAtPoint(ps, k, |ps|);
    hide *;
  }

  ghost predicate LiesOn(ps: seq<Point>, c: Poly) {
    forall i | 0 <= i < |ps| :: Eval(c, ps[i].x) == ps[i].y
  }

  lemma {:induction false} EvalPadded(c: Poly, n: nat, x: bv8)
    ensures Eval(c + Zeros(n), x) == Eval(c, x)
  {
    hide Eval;
    if n == 0 {
      assert c + Zeros(0) == c;
    } else {
      EvalPadded(c, n - 1, x);
      EvalTrailingZero(c + Zeros(n - 1), x);
      assert c + Zeros(n) == (c + Zeros(n - 1)) + [0];
    }
  }

  lemma AgreeAtPoint(ps: seq<Point>, c: Poly, i: nat)
    requires Distinct(Xs(ps)) && |c| <= |ps| && LiesOn(ps, c) && i < |ps|
    ensures Eval(LagrangePoly(ps, |ps|), ps[i].x) == Eval(c + Zeros(|ps| - |c|), ps[i].x)
  {
    hide Eval, LagrangePoly, Zeros, Distinct, Xs;
    Interpolates(ps, i);
    EvalPadded(c, |ps| - |c|, ps[i].x);
  }

  /** Points with distinct x on a polynomial of smaller degree than their number determine it. */
  lemma LagrangeIsEval(ps: seq<Point>, c: Poly, x: bv8)
    requires Distinct(Xs(ps)) && |c| <= |ps| && LiesOn(ps, c)
    ensures LagrangeSum(ps, x, |ps|) == Eval(c, x)
  {
    hide Eval, LagrangePoly, LagrangeSum, Zeros, Distinct, AddPoly;
    var l, d := LagrangePoly(ps, |ps|), c + Zeros(|ps| - |c|);
    forall i | 0 <= i < |ps| ensures Eval(l, Xs(ps)[i]) == Eval(d, Xs(ps)[i]) {
      AgreeAtPoint(ps, c, i);
    }
    hide Xs, LiesOn;
    AgreementIsEquality(l, d, Xs(ps));
    EvalPadded(c, |ps| - |c|, x);
    EvalLagrangePoly(ps, |ps|, x);
  }
}
