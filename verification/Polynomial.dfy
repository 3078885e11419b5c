/**
 * Polynomials with integer coefficients, lowest degree first, and what they
 * are modulo a prime: a non-zero one of length k has fewer than k roots, and
 * through k points with distinct abscissas there is exactly one.
 */
module Polynomial {
  import opened Bytes
  import opened ModArith

  type Poly = seq<int>

  datatype Point = Point(x: int, y: int)

  function Eval(c: Poly, x: int): int {
    if c == [] then 0 else c[0] + x * Eval(c[1..], x)
  }

  function Add(c: Poly, d: Poly): (s: Poly)
    ensures |s| == if |c| < |d| then |d| else |c|
  {
    if c == [] then d else if d == [] then c else [c[0] + d[0]] + Add(c[1..], d[1..])
  }

  function Scale(c: Poly, k: int): (s: Poly)
    ensures |s| == |c|
  {
    if c == [] then [] else [k * c[0]] + Scale(c[1..], k)
  }

  /** (X - a) * c */
  function MulLinear(c: Poly, a: int): (s: Poly)
    ensures |s| == |c| + 1
  {
    Add([0] + c, Scale(c, -a))
  }

  /** The quotient of `c` by (X - a); the remainder is `Eval(c, a)`. */
  function DivLinear(c: Poly, a: int): (q: Poly)
    ensures |q| == if |c| == 0 then 0 else |c| - 1
  {
    if |c| <= 1 then [] else [Eval(c[1..], a)] + DivLinear(c[1..], a)
  }

  lemma {:induction false} EvalAdd(c: Poly, d: Poly, x: int)
    ensures Eval(Add(c, d), x) == Eval(c, x) + Eval(d, x)
  {
    if c != [] && d != [] {
      var e, f := Eval(c[1..], x), Eval(d[1..], x);
      EvalAdd(c[1..], d[1..], x);
      assert x * (e + f) == x * e + x * f;
      assert Add(c, d)[1..] == Add(c[1..], d[1..]);
    }
  }

  lemma {:induction false} EvalScale(c: Poly, k: int, x: int)
    ensures Eval(Scale(c, k), x) == k * Eval(c, x)
  {
    if c != [] {
      var e := Eval(c[1..], x);
      EvalScale(c[1..], k, x);
      assert Scale(c, k)[1..] == Scale(c[1..], k);
      assert x * (k * e) == k * (x * e);
      assert k * (c[0] + x * e) == k * c[0] + k * (x * e);
    }
  }

  lemma EvalMulLinear(c: Poly, a: int, x: int)
    ensures Eval(MulLinear(c, a), x) == (x - a) * Eval(c, x)
  {
    EvalAdd([0] + c, Scale(c, -a), x);
    EvalScale(c, -a, x);
    assert ([0] + c)[1..] == c;
    assert (x - a) * Eval(c, x) == x * Eval(c, x) + -a * Eval(c, x);
  }

  /** Division with remainder by a linear factor. */
  lemma {:induction false} EvalDivLinear(c: Poly, a: int, x: int)
    ensures Eval(c, x) == (x - a) * Eval(DivLinear(c, a), x) + Eval(c, a)
  {
    if |c| >= 2 {
      var t, q := c[1..], DivLinear(c[1..], a);
      var e, r := Eval(q, x), Eval(t, a);
      EvalDivLinear(t, a, x);
      assert DivLinear(c, a)[1..] == q;
      assert Eval(DivLinear(c, a), x) == r + x * e;
      DivisionStep(c[0], x, a, e, r);
    } else if |c| == 1 {
      assert Eval(c, x) == c[0] + x * 0;
      assert Eval(c, a) == c[0] + a * 0;
    }
  }

  lemma DivisionStep(c0: int, x: int, a: int, e: int, r: int)
    ensures c0 + x * ((x - a) * e + r) == (x - a) * (r + x * e) + (c0 + a * r)
  {
    assert x * ((x - a) * e) == (x - a) * (x * e);
    assert (x - a) * (r + x * e) == x * r - a * r + (x - a) * (x * e);
  }

  lemma {:induction false} EvalAppend(c: Poly, a: int, x: int, power: int)
    requires power == Pow(x, |c|)
    ensures Eval(c + [a], x) == Eval(c, x) + a * power
  {
    if c == [] {
      assert x * Eval([], x) == 0;
    } else {
      var e, q := Eval(c[1..], x), Pow(x, |c| - 1);
      EvalAppend(c[1..], a, x, q);
      HeadAndTail(c, a, x);
      hide Eval, Pow;
      AppendedTerm(c[0], x, e, a, q);
    }
  }

  lemma HeadAndTail(c: Poly, a: int, x: int)
    requires c != []
    ensures Eval(c, x) == c[0] + x * Eval(c[1..], x)
    ensures Eval(c + [a], x) == c[0] + x * Eval(c[1..] + [a], x)
    ensures Pow(x, |c|) == x * Pow(x, |c| - 1)
  {
    assert (c + [a])[1..] == c[1..] + [a];
  }

  lemma AppendedTerm(c0: int, x: int, e: int, a: int, q: int)
    ensures c0 + x * (e + a * q) == (c0 + x * e) + a * (x * q)
  {
    assert x * (a * q) == a * (x * q);
  }

  // ------------------------------------------------------------ modulo p

  ghost predicate Vanishes(c: Poly, p: int) {
    forall i :: 0 <= i < |c| ==> Cong(p, c[i], 0)
  }

  ghost predicate CongPoly(p: int, c: Poly, d: Poly) {
    |c| == |d| && forall i :: 0 <= i < |c| ==> Cong(p, c[i], d[i])
  }

  ghost predicate Distinct(p: int, xs: seq<int>) {
    forall i, j :: 0 <= i < j < |xs| ==> !Cong(p, xs[i], xs[j])
  }

  ghost predicate Through(c: Poly, points: seq<Point>, p: int) {
    forall i :: 0 <= i < |points| ==> Cong(p, Eval(c, points[i].x), points[i].y)
  }

  function Xs(points: seq<Point>): (xs: seq<int>)
    ensures |xs| == |points|
    ensures forall i :: 0 <= i < |points| ==> xs[i] == points[i].x
  {
    seq(|points|, i requires 0 <= i < |points| => points[i].x)
  }

  lemma {:induction false} VanishesFromQuotient(c: Poly, a: int, p: int)
    requires Cong(p, Eval(c, a), 0) && Vanishes(DivLinear(c, a), p)
    ensures Vanishes(c, p)
  {
    if |c| == 1 {
      assert Eval(c, a) == c[0] + a * 0;
    } else if |c| >= 2 {
      var q, t := DivLinear(c, a), c[1..];
      assert q[0] == Eval(t, a) && q[1..] == DivLinear(t, a);
      assert Vanishes(q[1..], p) by {
        forall i | 0 <= i < |q[1..]|
          ensures Cong(p, q[1..][i], 0)
        {
          assert q[1..][i] == q[i + 1];
        }
      }
      VanishesFromQuotient(t, a, p);
      CongScale(p, q[0], 0, a);
      CongSub(p, Eval(c, a), 0, a * q[0], 0);
      forall i | 0 <= i < |c|
        ensures Cong(p, c[i], 0)
      {
        if i > 0 {
          assert c[i] == t[i - 1];
        }
      }
    }
  }

  /** A polynomial with at least as many distinct roots as coefficients is zero. */
  lemma {:induction false} RootBound(c: Poly, roots: seq<int>, p: int)
    requires IsPrime(p) && |c| <= |roots| && Distinct(p, roots)
    requires forall i :: 0 <= i < |roots| ==> Cong(p, Eval(c, roots[i]), 0)
    ensures Vanishes(c, p)
    decreases |c|
  {
    if c != [] {
      var a, rest := roots[0], roots[1..];
      var q := DivLinear(c, a);
      forall i | 0 <= i < |rest|
        ensures Cong(p, Eval(q, rest[i]), 0)
      {
        QuotientRoot(c, a, roots[i + 1], p);
      }
      assert Distinct(p, rest) by {
        forall i, j | 0 <= i < j < |rest|
          ensures !Cong(p, rest[i], rest[j])
        {
          assert rest[i] == roots[i + 1] && rest[j] == roots[j + 1];
        }
      }
      RootBound(q, rest, p);
      VanishesFromQuotient(c, a, p);
    }
  }

  lemma QuotientRoot(c: Poly, a: int, b: int, p: int)
    requires IsPrime(p) && !Cong(p, a, b)
    requires Cong(p, Eval(c, a), 0) && Cong(p, Eval(c, b), 0)
    ensures Cong(p, Eval(DivLinear(c, a), b), 0)
  {
    EvalDivLinear(c, a, b);
    CongSub(p, Eval(c, b), 0, Eval(c, a), 0);
    if Cong(p, b - a, 0) {
      CongRefl(p, a);
      CongAdd(p, b - a, 0, a, a);
      CongSym(p, b, a);
    }
    NoZeroDivisors(p, b - a, Eval(DivLinear(c, a), b));
  }

  function Minus(c: Poly, d: Poly): (s: Poly)
    ensures |s| == if |c| < |d| then |d| else |c|
  {
    Add(c, Scale(d, -1))
  }

  lemma EvalMinus(c: Poly, d: Poly, x: int)
    ensures Eval(Minus(c, d), x) == Eval(c, x) - Eval(d, x)
  {
    EvalAdd(c, Scale(d, -1), x);
    EvalScale(d, -1, x);
  }

  lemma {:induction false} MinusAt(c: Poly, d: Poly, i: nat)
    requires |c| == |d| && i < |c|
    ensures Minus(c, d)[i] == c[i] - d[i]
  {
    if i > 0 {
      MinusAt(c[1..], d[1..], i - 1);
    }
  }

  lemma {:induction false} EvalVanishes(c: Poly, x: int, p: int)
    requires Vanishes(c, p)
    ensures Cong(p, Eval(c, x), 0)
  {
    if c == [] {
      CongRefl(p, 0);
    } else {
      assert Vanishes(c[1..], p) by {
        forall i | 0 <= i < |c[1..]|
          ensures Cong(p, c[1..][i], 0)
        {
          assert c[1..][i] == c[i + 1];
        }
      }
      EvalVanishes(c[1..], x, p);
      CongScale(p, Eval(c[1..], x), 0, x);
      CongAdd(p, c[0], 0, x * Eval(c[1..], x), 0);
    }
  }

  /**
   * Two polynomials no longer than the number of points they both pass
   * through take the same values everywhere, and have the same coefficients
   * when they have the same length.
   */
  lemma {:induction false} InterpolationUnique(c: Poly, d: Poly, points: seq<Point>, p: int)
    requires IsPrime(p) && Distinct(p, Xs(points))
    requires |c| <= |points| && |d| <= |points|
    requires Through(c, points, p) && Through(d, points, p)
    ensures forall x :: Cong(p, Eval(c, x), Eval(d, x))
    ensures |c| == |d| ==> CongPoly(p, c, d)
  {
    var m := Minus(c, d);
    forall i | 0 <= i < |points|
      ensures Cong(p, Eval(m, Xs(points)[i]), 0)
    {
      var pt := points[i];
      EvalMinus(c, d, pt.x);
      CongSub(p, Eval(c, pt.x), pt.y, Eval(d, pt.x), pt.y);
    }
    RootBound(m, Xs(points), p);
    forall x
      ensures Cong(p, Eval(c, x), Eval(d, x))
    {
      EvalVanishes(m, x, p);
      EvalMinus(c, d, x);
      CongFromDifference(p, Eval(c, x), Eval(d, x));
    }
    if |c| == |d| {
      forall i | 0 <= i < |c|
        ensures Cong(p, c[i], d[i])
      {
        MinusAt(c, d, i);
        CongFromDifference(p, c[i], d[i]);
      }
    }
  }

  lemma CongFromDifference(p: int, a: int, b: int)
    requires Cong(p, a - b, 0)
    ensures Cong(p, a, b)
  {
    CongRefl(p, b);
    CongAdd(p, a - b, 0, b, b);
  }

  // ---------------------------------------------------------- Lagrange basis

  /**
   * The product over the first `upto` abscissas except the `i`-th of
   * (X - xs[j]) / (xs[i] - xs[j]), the quotient being a product with the inverse.
   */
  ghost function Basis(xs: seq<int>, i: nat, upto: nat, p: int): (b: Poly)
    requires i < |xs| && upto <= |xs| && p > 1
    ensures |b| == if upto <= i then upto + 1 else upto
  {
    if upto == 0 then [1]
    else if upto - 1 == i then Basis(xs, i, upto - 1, p)
    else Scale(MulLinear(Basis(xs, i, upto - 1, p), xs[upto - 1]), InverseOrZero(xs[i] - xs[upto - 1], p))
  }

  ghost function InverseOrZero(a: int, p: int): int
    requires p > 1
  {
    match Inverse(a, p)
    case Some(v) => v
    case None => 0
  }

  lemma {:induction false} EvalBasisStep(xs: seq<int>, i: nat, upto: nat, p: int, x: int)
    requires i < |xs| && upto < |xs| && upto != i && p > 1
    ensures Eval(Basis(xs, i, upto + 1, p), x)
         == InverseOrZero(xs[i] - xs[upto], p) * ((x - xs[upto]) * Eval(Basis(xs, i, upto, p), x))
  {
    EvalScale(MulLinear(Basis(xs, i, upto, p), xs[upto]), InverseOrZero(xs[i] - xs[upto], p), x);
    EvalMulLinear(Basis(xs, i, upto, p), xs[upto], x);
  }

  lemma {:induction false} BasisAtOwn(xs: seq<int>, i: nat, upto: nat, p: int)
    requires IsPrime(p) && i < |xs| && upto <= |xs| && Distinct(p, xs)
    ensures Cong(p, Eval(Basis(xs, i, upto, p), xs[i]), 1)
  {
    if upto == 0 {
      assert Eval([1], xs[i]) == 1 + xs[i] * 0;
      CongRefl(p, 1);
    } else {
      BasisAtOwn(xs, i, upto - 1, p);
      if upto - 1 != i {
        BasisAtOwnStep(xs, i, upto - 1, p, Eval(Basis(xs, i, upto - 1, p), xs[i]));
      }
    }
  }

  lemma {:induction false} BasisAtOwnStep(xs: seq<int>, i: nat, j: nat, p: int, e: int)
    requires IsPrime(p) && i < |xs| && j < |xs| && i != j && Distinct(p, xs)
    requires e == Eval(Basis(xs, i, j, p), xs[i]) && Cong(p, e, 1)
    ensures Cong(p, Eval(Basis(xs, i, j + 1, p), xs[i]), 1)
  {
    var den := xs[i] - xs[j];
    NonZeroDifference(p, xs, i, j);
    InverseExists(den, p);
    var v := InverseOrZero(den, p);
    UnitFactor(p, den, v, e);
    EvalBasisStep(xs, i, j, p, xs[i]);
  }

  lemma UnitFactor(p: int, den: int, v: int, e: int)
    requires Cong(p, den * v, 1) && Cong(p, e, 1)
    ensures Cong(p, v * (den * e), 1)
  {
    assert v * (den * e) == (den * v) * e;
    CongMul(p, den * v, 1, e, 1);
  }

  lemma NonZeroDifference(p: int, xs: seq<int>, i: nat, j: nat)
    requires Distinct(p, xs) && i < |xs| && j < |xs| && i != j
    ensures !Cong(p, xs[i] - xs[j], 0)
  {
    if Cong(p, xs[i] - xs[j], 0) {
      CongFromDifference(p, xs[i], xs[j]);
      CongSym(p, xs[i], xs[j]);
    }
  }

  lemma {:induction false} BasisAtOther(xs: seq<int>, i: nat, upto: nat, p: int, m: nat)
    requires i < |xs| && m < upto <= |xs| && m != i && p > 1
    ensures Eval(Basis(xs, i, upto, p), xs[m]) == 0
  {
    var j := upto - 1;
    if j == m {
      EvalBasisStep(xs, i, j, p, xs[m]);
      assert (xs[m] - xs[j]) * Eval(Basis(xs, i, j, p), xs[m]) == 0;
    } else {
      BasisAtOther(xs, i, j, p, m);
      if j != i {
        EvalBasisStep(xs, i, j, p, xs[m]);
      }
    }
  }

  /** The sum of the first `upto` basis polynomials, each weighted with its ordinate. */
  ghost function Lagrange(points: seq<Point>, upto: nat, p: int): (c: Poly)
    requires upto <= |points| && p > 1
    ensures |c| == if upto == 0 then 0 else |points|
  {
    if upto == 0 then []
    else Add(Lagrange(points, upto - 1, p), Scale(Basis(Xs(points), upto - 1, |points|, p), points[upto - 1].y))
  }

  lemma {:induction false} EvalLagrangeStep(points: seq<Point>, i: nat, p: int, x: int)
    requires i < |points| && p > 1
    ensures Eval(Lagrange(points, i + 1, p), x)
         == Eval(Lagrange(points, i, p), x) + points[i].y * Eval(Basis(Xs(points), i, |points|, p), x)
  {
    var b := Basis(Xs(points), i, |points|, p);
    EvalAdd(Lagrange(points, i, p), Scale(b, points[i].y), x);
    EvalScale(b, points[i].y, x);
  }

  lemma {:induction false} LagrangeAt(points: seq<Point>, upto: nat, p: int, m: nat)
    requires IsPrime(p) && Distinct(p, Xs(points)) && upto <= |points| && m < |points|
    ensures Cong(p, Eval(Lagrange(points, upto, p), points[m].x), if m < upto then points[m].y else 0)
  {
    if upto == 0 {
      CongRefl(p, 0);
    } else {
      LagrangeAt(points, upto - 1, p, m);
      LagrangeAtStep(points, upto - 1, p, m);
    }
  }

  lemma {:induction false} LagrangeAtStep(points: seq<Point>, i: nat, p: int, m: nat)
    requires IsPrime(p) && Distinct(p, Xs(points)) && i < |points| && m < |points|
    requires Cong(p, Eval(Lagrange(points, i, p), points[m].x), if m < i then points[m].y else 0)
    ensures Cong(p, Eval(Lagrange(points, i + 1, p), points[m].x), if m < i + 1 then points[m].y else 0)
  {
    var xs, x, y := Xs(points), points[m].x, points[i].y;
    var e, sum := Eval(Basis(xs, i, |points|, p), x), Eval(Lagrange(points, i, p), x);
    var unit := if i == m then 1 else 0;
    assert Cong(p, e, unit) by {
      if i == m {
        BasisAtOwn(xs, i, |points|, p);
      } else {
        BasisAtOther(xs, i, |points|, p, m);
        CongRefl(p, 0);
      }
    }
    var was := if m < i then points[m].y else 0;
    assert was + y * unit == if m < i + 1 then points[m].y else 0;
    AddTerm(p, sum, was, y, e, unit);
    EvalLagrangeStep(points, i, p, x);
  }

  lemma AddTerm(p: int, sum: int, was: int, y: int, e: int, unit: int)
    requires Cong(p, sum, was) && Cong(p, e, unit)
    ensures Cong(p, sum + y * e, was + y * unit)
  {
    CongScale(p, e, unit, y);
    CongAdd(p, sum, was, y * e, y * unit);
  }

  /** The Lagrange polynomial passes through every point, so an interpolant exists. */
  lemma LagrangeInterpolates(points: seq<Point>, p: int)
    requires IsPrime(p) && Distinct(p, Xs(points))
    ensures Through(Lagrange(points, |points|, p), points, p)
    ensures |Lagrange(points, |points|, p)| == |points|
  {
    forall m | 0 <= m < |points|
      ensures Cong(p, Eval(Lagrange(points, |points|, p), points[m].x), points[m].y)
    {
      LagrangeAt(points, |points|, p, m);
    }
  }
}
