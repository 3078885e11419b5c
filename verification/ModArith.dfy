/** Congruence modulo an integer, and the inverses that exist modulo a prime. */
module ModArith {
  import opened Wrappers

  function Times(a: int, b: int): int { a * b }

  ghost predicate IsPrime(p: int) {
    p >= 2 && forall d :: 2 <= d < p ==> p % d != 0
  }

  /** `a` and `b` differ by a multiple of `p`. */
  ghost predicate Cong(p: int, a: int, b: int) {
    exists k :: a == b + Times(p, k)
  }

  lemma CongBy(p: int, a: int, b: int, k: int)
    requires a == b + p * k
    ensures Cong(p, a, b)
  {
    assert a == b + Times(p, k);
  }

  lemma CongRefl(p: int, a: int)
    ensures Cong(p, a, a)
  {
    CongBy(p, a, a, 0);
  }

  lemma CongSym(p: int, a: int, b: int)
    requires Cong(p, a, b)
    ensures Cong(p, b, a)
  {
    var k :| a == b + Times(p, k);
    CongBy(p, b, a, -k);
  }

  lemma CongTrans(p: int, a: int, b: int, c: int)
    requires Cong(p, a, b) && Cong(p, b, c)
    ensures Cong(p, a, c)
  {
    var k :| a == b + Times(p, k);
    var l :| b == c + Times(p, l);
    assert p * k + p * l == p * (k + l);
    CongBy(p, a, c, k + l);
  }

  lemma CongAdd(p: int, a: int, b: int, c: int, d: int)
    requires Cong(p, a, b) && Cong(p, c, d)
    ensures Cong(p, a + c, b + d)
  {
    var k :| a == b + Times(p, k);
    var l :| c == d + Times(p, l);
    assert p * k + p * l == p * (k + l);
    CongBy(p, a + c, b + d, k + l);
  }

  lemma CongScale(p: int, a: int, b: int, c: int)
    requires Cong(p, a, b)
    ensures Cong(p, a * c, b * c) && Cong(p, c * a, c * b)
  {
    var k :| a == b + Times(p, k);
    assert (b + p * k) * c == b * c + p * (k * c);
    CongBy(p, a * c, b * c, k * c);
  }

  lemma CongMul(p: int, a: int, b: int, c: int, d: int)
    requires Cong(p, a, b) && Cong(p, c, d)
    ensures Cong(p, a * c, b * d)
  {
    CongScale(p, a, b, c);
    CongScale(p, c, d, b);
    CongTrans(p, a * c, b * c, b * d);
  }

  lemma CongMod(p: int, a: int)
    requires p > 0
    ensures Cong(p, a % p, a) && Cong(p, a, a % p)
  {
    assert a == p * (a / p) + a % p;
    CongBy(p, a, a % p, a / p);
    CongSym(p, a, a % p);
  }

  /** Two reduced residues that are congruent are equal. */
  lemma ResidueUnique(p: int, a: int, b: int)
    requires p > 0 && 0 <= a < p && 0 <= b < p && Cong(p, a, b)
    ensures a == b
  {
    var k :| a == b + Times(p, k);
    assert -p < p * k < p;
    NoSmallMultiple(p, k);
  }

  lemma NoSmallMultiple(p: int, k: int)
    requires -p < p * k < p
    ensures k == 0
  {
  }

  lemma CongIffMod(p: int, a: int, b: int)
    requires p > 0
    ensures Cong(p, a, b) <==> a % p == b % p
  {
    CongMod(p, a);
    CongMod(p, b);
    if Cong(p, a, b) {
      CongTrans(p, a % p, a, b);
      CongTrans(p, a % p, b, b % p);
      ResidueUnique(p, a % p, b % p);
    }
    if a % p == b % p {
      CongTrans(p, a, a % p, b);
    }
  }

  /** Quotient and remainder are the only pair that fits. */
  lemma DivUnique(n: int, q: int, d: int, r: int)
    requires q > 0 && n == q * d + r && 0 <= r < q
    ensures n / q == d && n % q == r
  {
    var e := n / q - d;
    assert q * (n / q) + n % q == n;
    assert q * e == r - n % q by {
      assert q * (n / q) - q * d == q * e;
    }
    NoSmallMultiple(q, e);
  }

  // -------------------------------------------------------------- inverses

  /** Coefficients of the extended Euclidean algorithm. */
  function ExtendedGcd(a: nat, b: nat): (g: (nat, int, int))
    ensures g.0 == a * g.1 + b * g.2
    ensures a > 0 || b > 0 ==> g.0 > 0
    decreases b
  {
    if b == 0 then (a, 1, 0)
    else
      var (d, x, y) := ExtendedGcd(b, a % b);
      assert d == a * y + b * (x - a / b * y) by {
        assert a == b * (a / b) + a % b;
        assert (a % b) * y == a * y - (b * (a / b)) * y;
        assert (b * (a / b)) * y == b * (a / b * y);
        assert b * x - b * (a / b * y) == b * (x - a / b * y);
      }
      (d, y, x - a / b * y)
  }

  lemma {:induction false} GcdDivides(a: nat, b: nat)
    ensures Cong(ExtendedGcd(a, b).0, a, 0) && Cong(ExtendedGcd(a, b).0, b, 0)
    decreases b
  {
    var g := ExtendedGcd(a, b).0;
    if b == 0 {
      CongBy(g, a, 0, 1);
      CongBy(g, b, 0, 0);
    } else {
      GcdDivides(b, a % b);
      CongScale(g, b, 0, a / b);
      CongAdd(g, b * (a / b), 0, a % b, 0);
      assert a == b * (a / b) + a % b;
    }
  }

  ghost predicate IsInverse(p: int, a: int, v: int) {
    0 <= v < p && Cong(p, a * v, 1)
  }

  /** The reduced inverse of `a` modulo `p`, if there is one. */
  ghost function Inverse(a: int, p: int): (r: Option<int>)
    ensures r.Some? ==> IsInverse(p, a, r.value)
  {
    if exists v :: IsInverse(p, a, v) then
      var v :| IsInverse(p, a, v);
      Some(v)
    else
      None
  }

  lemma InverseUnique(p: int, a: int, v: int)
    requires p > 0 && IsInverse(p, a, v)
    ensures Inverse(a, p) == Some(v)
  {
    var w := Inverse(a, p).value;
    CongScale(p, a * v, 1, w);
    CongScale(p, a * w, 1, v);
    MulSwap(a, v, w);
    CongSym(p, a * v * w, 1 * w);
    CongTrans(p, w, a * v * w, v);
    ResidueUnique(p, w, v);
  }

  /** Dividing the greatest common divisor of `a` and `p`, an inverse forces it to be one. */
  lemma InverseNeedsCoprime(p: int, a: int, v: int, g: int)
    requires g > 0 && Cong(g, a, 0) && Cong(g, p, 0) && Cong(p, a * v, 1)
    ensures g == 1
  {
    var k :| a * v == 1 + Times(p, k);
    CongScale(g, a, 0, v);
    CongScale(g, p, 0, k);
    CongSub(g, a * v, 0, p * k, 0);
    DivisorBound(g, 1);
  }

  /** `pow(a, -1, p)`, which raises when `a` and `p` share a factor. */
  method ModularInverse(a: int, p: int) returns (r: Option<int>)
    requires p > 1
    ensures r == Inverse(a, p)
  {
    var (g, x, y) := ExtendedGcd(a % p, p);
    GcdOfResidue(a, p);
    if g == 1 {
      BezoutInverse(a, p, x, y);
      InverseUnique(p, a, x % p);
      r := Some(x % p);
    } else {
      if Inverse(a, p).Some? {
        InverseNeedsCoprime(p, a, Inverse(a, p).value, g);
      }
      r := None;
    }
  }

  lemma GcdOfResidue(a: int, p: int)
    requires p > 0
    ensures ExtendedGcd(a % p, p).0 > 0
    ensures Cong(ExtendedGcd(a % p, p).0, a, 0) && Cong(ExtendedGcd(a % p, p).0, p, 0)
  {
    var g := ExtendedGcd(a % p, p).0;
    GcdDivides(a % p, p);
    CongScale(g, p, 0, a / p);
    CongAdd(g, p * (a / p), 0, a % p, 0);
    assert a == p * (a / p) + a % p;
  }

  lemma BezoutInverse(a: int, p: int, x: int, y: int)
    requires p > 1 && 1 == (a % p) * x + p * y
    ensures IsInverse(p, a, x % p)
  {
    CongMod(p, a);
    CongMod(p, x);
    CongMul(p, a, a % p, x % p, x);
    CongBy(p, (a % p) * x, 1, -y);
    CongTrans(p, a * (x % p), (a % p) * x, 1);
  }

  /** Modulo a prime exactly the multiples of the prime have no inverse. */
  lemma InverseExists(a: int, p: int)
    requires IsPrime(p)
    ensures Inverse(a, p).Some? <==> !Cong(p, a, 0)
  {
    if Cong(p, a, 0) {
      if Inverse(a, p).Some? {
        CongRefl(p, p);
        CongBy(p, p, 0, 1);
        InverseNeedsCoprime(p, a, Inverse(a, p).value, p);
      }
    } else {
      var (g, x, y) := ExtendedGcd(a % p, p);
      GcdOfResidue(a, p);
      CongIffMod(p, a, 0);
      DivUnique(0, p, 0, 0);
      assert a % p != 0;
      GcdDivides(a % p, p);
      DivisorBound(g, a % p);
      CongIffMod(g, p, 0);
      DivUnique(0, g, 0, 0);
      BezoutInverse(a, p, x, y);
    }
  }

  lemma DivisorBound(g: int, r: int)
    requires g > 0 && r > 0 && Cong(g, r, 0)
    ensures g <= r
  {
    var k :| r == 0 + Times(g, k);
    if g > r {
      NoSmallMultiple(g, k);
    }
  }

  lemma MulSwap(a: int, b: int, c: int)
    ensures (a * b) * c == (a * c) * b
  {
  }

  /** Euclid's lemma: a prime field has no zero divisors. */
  lemma NoZeroDivisors(p: int, a: int, b: int)
    requires IsPrime(p) && Cong(p, a * b, 0) && !Cong(p, a, 0)
    ensures Cong(p, b, 0)
  {
    InverseExists(a, p);
    var v := Inverse(a, p).value;
    var av, ab := a * v, a * b;
    CongScale(p, av, 1, b);
    CongSym(p, av * b, 1 * b);
    CongScale(p, ab, 0, v);
    MulSwap(a, v, b);
    CongTrans(p, b, ab * v, 0);
  }

  lemma CongSub(p: int, a: int, b: int, c: int, d: int)
    requires Cong(p, a, b) && Cong(p, c, d)
    ensures Cong(p, a - c, b - d)
  {
    CongScale(p, c, d, -1);
    CongAdd(p, a, b, c * -1, d * -1);
  }
}
