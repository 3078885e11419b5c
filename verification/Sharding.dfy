/**
 * Threshold sharing of a secret over a prime field: the secret is the constant
 * term of a polynomial, node i holds its value at i, and the value at zero is
 * interpolated back. Models src/client/sharding.py.
 */
module Sharding {
  import opened Bytes
  import opened ModArith
  import opened Numerals
  import opened Polynomial
  import opened Wrappers

  const MERSENNE_521: int := Pow(2, 521) - 1

  datatype Shard = Shard(nodeId: int, epoch: int, shard: string)

  datatype Enrollment = Enrollment(shards: seq<Shard>, length: nat, threshold: int, totalNodes: int)

  /** What Python raises: no modular inverse, an integer too big to convert, a malformed numeral. */
  datatype ShardError = NotInvertible | Overflow | BadNumeral

  // ------------------------------------------------------------ definitions

  function Hex(n: nat): string {
    "0x" + Print(n, 16)
  }

  /** `int(s, 16)` on an optional "0x" prefix followed by digits. */
  function ParseHex(s: string): Option<nat> {
    if |s| >= 2 && s[0] == '0' && (s[1] == 'x' || s[1] == 'X') then Parse(s[2..], 16) else Parse(s, 16)
  }

  function Coefficients(secret: seq<byte>, random: seq<int>): (c: Poly)
    ensures |c| == |random| + 1
  {
    [FromBigEndian(secret)] + random
  }

  function ShareValue(c: Poly, id: int, p: int): (y: nat)
    requires p > 0
    ensures y < p
  {
    Eval(c, id) % p
  }

  function ShardList(c: Poly, n: nat, epoch: int, p: int): (s: seq<Shard>)
    requires p > 0
    ensures |s| == n
  {
    seq(n, i requires 0 <= i < n => Shard(i + 1, epoch, Hex(ShareValue(c, i + 1, p))))
  }

  function ToBytes(n: nat, len: nat): Result<seq<byte>, ShardError> {
    if n < Pow(256, len) then Success(ToBigEndian(n, len)) else Failure(Overflow)
  }

  /** The value at zero of the interpolating polynomial of `points`. */
  ghost function SecretAtZero(points: seq<Point>, p: int): (s: nat)
    requires p > 1
    ensures s < p
  {
    Eval(Lagrange(points, |points|, p), 0) % p
  }

  ghost function Reconstructed(points: seq<Point>, len: nat, p: int): Result<seq<byte>, ShardError>
    requires p > 1
  {
    if Distinct(p, Xs(points)) then ToBytes(SecretAtZero(points, p), len) else Failure(NotInvertible)
  }

  lemma LargeField()
    ensures MERSENNE_521 > 3
  {
    PowAdd(2, 3, 518);
    PowPositive(2, 518);
    assert Pow(2, 3) == 8;
  }

  function Enrolled(email: seq<byte>, random: seq<int>, n: nat): Enrollment {
    LargeField();
    Enrollment(ShardList(Coefficients(email, random), n, 1, MERSENNE_521), |email|, 3, n)
  }

  /** Share strings in node order as points: the first one lies at 1. */
  function PointsOf(shares: seq<string>): (r: Option<seq<Point>>)
    ensures r.Some? ==> |r.value| == |shares|
  {
    if shares == [] then Some([])
    else
      match (PointsOf(shares[..|shares| - 1]), ParseHex(shares[|shares| - 1]))
      case (Some(points), Some(y)) => Some(points + [Point(|shares|, y)])
      case _ => None
  }

  lemma {:induction false} PointsOfPrefix(shares: seq<string>, k: nat)
    requires 0 < k <= |shares|
    ensures shares[..k][..k - 1] == shares[..k - 1]
    ensures PointsOf(shares[..k]) == None ==> PointsOf(shares) == None
    decreases |shares| - k
  {
    if k == |shares| {
      assert shares[..k] == shares;
    } else {
      PointsOfPrefix(shares, k + 1);
    }
  }

  ghost function ReconstructedEmail(shares: seq<string>, len: nat): Result<seq<byte>, ShardError> {
    LargeField();
    match PointsOf(if |shares| < 3 then shares else shares[..3])
    case Some(points) => Reconstructed(points, len, MERSENNE_521)
    case None => Failure(BadNumeral)
  }

  // -------------------------------------------------------------- the class

  class ThresholdSharder {
    const t: int
    const n: int
    const prime: int

    constructor (threshold: int, totalNodes: int)
      ensures t == threshold && n == totalNodes && prime == MERSENNE_521
    {
      t := threshold;
      n := totalNodes;
      prime := MERSENNE_521;
    }

    function RandomCount(): nat {
      if t < 1 then 0 else t - 1
    }

    function Nodes(): nat {
      if n < 0 then 0 else n
    }

    /** `random` holds the draws, already reduced modulo the prime. */
    method ShardSecret(secret: seq<byte>, random: seq<int>, epoch: int) returns (r: Enrollment)
      requires prime > 1 && |random| == RandomCount()
      ensures r == Enrollment(ShardList(Coefficients(secret, random), Nodes(), epoch, prime), |secret|, t, n)
    {
      var coeffs := Coefficients(secret, random);
      var shards: seq<Shard> := [];
      for i := 1 to Nodes() + 1
        invariant shards == ShardList(coeffs, Nodes(), epoch, prime)[..i - 1]
      {
        var y := 0;
        CongRefl(prime, 0);
        for degree := 0 to |coeffs|
          invariant 0 <= y < prime
          invariant Cong(prime, y, Eval(coeffs[..degree], i))
        {
          var power := Pow(i, degree) % prime;
          HornerStep(prime, coeffs, degree, i, y);
          y := (y + coeffs[degree] * power) % prime;
        }
        assert coeffs[..|coeffs|] == coeffs;
        CongIffMod(prime, y, Eval(coeffs, i));
        DivUnique(y, prime, 0, y);
        shards := shards + [Shard(i, epoch, Hex(y))];
      }
      r := Enrollment(shards, |secret|, t, n);
    }

    method ReconstructSecret(nodeShards: seq<Point>, originalLen: nat) returns (r: Result<seq<byte>, ShardError>)
      requires IsPrime(prime)
      ensures r == Reconstructed(nodeShards, originalLen, prime)
    {
      hide PartialSum, PartialFactor, Inverse, Distinct, SecretAtZero;
      var p := prime;
      var secret := 0;
      SumStart(p, nodeShards);
      for i := 0 to |nodeShards|
        invariant PartialSum(p, nodeShards, i, secret)
      {
        var xi, yi := nodeShards[i].x, nodeShards[i].y;
        var li := 1;
        FactorStart(p, nodeShards, i);
        for j := 0 to |nodeShards|
          invariant PartialFactor(p, nodeShards, i, j, li)
        {
          if i != j {
            var xj := nodeShards[j].x;
            var num := (0 - xj) % p;
            var den := (xi - xj) % p;
            var inverse := ModularInverse(den, p);
            FactorStep(p, nodeShards, i, j, li, num, den);
            if inverse == None {
              return Failure(NotInvertible);
            }
            li := (li * num * inverse.value) % p;
          } else {
            FactorSkip(p, nodeShards, i, li);
          }
        }
        SumStep(p, nodeShards, i, secret, li);
        secret := (secret + yi * li) % p;
      }
      SumEnd(p, nodeShards, secret);
      r := ToBytes(secret, originalLen);
    }
  }

  method EnrollEmail(email: seq<byte>, random: seq<int>, n: int) returns (r: Enrollment)
    requires |random| == 2
    ensures r == Enrolled(email, random, if n < 0 then 0 else n).(totalNodes := n)
    ensures |r.shards| == (if n < 0 then 0 else n) && r.length == |email| && r.threshold == 3 && r.totalNodes == n
    ensures forall i :: 0 <= i < |r.shards| ==> r.shards[i].nodeId == i + 1 && r.shards[i].epoch == 1
  {
    LargeField();
    var sharder := new ThresholdSharder(3, n);
    r := sharder.ShardSecret(email, random, 1);
  }

  method ReconstructEmail(shares: seq<string>, emailLength: nat) returns (r: Result<seq<byte>, ShardError>)
    requires IsPrime(MERSENNE_521)
    ensures r == ReconstructedEmail(shares, emailLength)
  {
    var sharder := new ThresholdSharder(3, |shares|);
    var first := if |shares| < 3 then shares else shares[..3];
    var nodeShards: seq<Point> := [];
    for i := 0 to |first|
      invariant PointsOf(first[..i]) == Some(nodeShards)
    {
      var y := ParseHex(first[i]);
      PointsOfPrefix(first, i + 1);
      if y == None {
        return Failure(BadNumeral);
      }
      nodeShards := nodeShards + [Point(i + 1, y.value)];
    }
    assert first[..|first|] == first;
    r := sharder.ReconstructSecret(nodeShards, emailLength);
  }

  lemma HornerStep(p: int, c: Poly, d: nat, x: int, y: int)
    requires p > 1 && d < |c| && Cong(p, y, Eval(c[..d], x))
    ensures Cong(p, (y + c[d] * (Pow(x, d) % p)) % p, Eval(c[..d + 1], x))
  {
    var w := Pow(x, d);
    CongMod(p, w);
    AddTerm(p, y, Eval(c[..d], x), c[d], w % p, w);
    EvalAppend(c[..d], c[d], x, w);
    assert c[..d] + [c[d]] == c[..d + 1];
    ReduceStep(p, y + c[d] * (w % p), Eval(c[..d + 1], x));
  }

  lemma ReduceStep(p: int, a: int, b: int)
    requires p > 0 && Cong(p, a, b)
    ensures Cong(p, a % p, b)
  {
    CongMod(p, a);
    CongTrans(p, a % p, a, b);
  }

  // --------------------------------------------- the interpolation loops

  ghost predicate ApartFrom(p: int, xs: seq<int>, i: nat, upto: nat)
    requires i < |xs| && upto <= |xs|
  {
    forall b :: 0 <= b < upto && b != i ==> !Cong(p, xs[i], xs[b])
  }

  /** `secret` sums the first `i` terms and those abscissas were met nowhere else. */
  ghost predicate PartialSum(p: int, points: seq<Point>, i: nat, secret: int)
    requires p > 1 && i <= |points|
  {
    && 0 <= secret < p
    && Cong(p, secret, Eval(Lagrange(points, i, p), 0))
    && forall a :: 0 <= a < i ==> ApartFrom(p, Xs(points), a, |points|)
  }

  /** `li` multiplies the factors of the first `j` other points, which lie elsewhere. */
  ghost predicate PartialFactor(p: int, points: seq<Point>, i: nat, j: nat, li: int)
    requires p > 1 && i < |points| && j <= |points|
  {
    && Cong(p, li, Eval(Basis(Xs(points), i, j, p), 0))
    && ApartFrom(p, Xs(points), i, j)
  }

  lemma SumStart(p: int, points: seq<Point>)
    requires p > 1
    ensures PartialSum(p, points, 0, 0)
  {
    CongRefl(p, 0);
  }

  lemma FactorStart(p: int, points: seq<Point>, i: nat)
    requires p > 1 && i < |points|
    ensures PartialFactor(p, points, i, 0, 1)
  {
    assert Eval([1], 0) == 1;
    CongRefl(p, 1);
  }

  /** The point itself contributes no factor. */
  lemma FactorSkip(p: int, points: seq<Point>, i: nat, li: int)
    requires p > 1 && i < |points| && PartialFactor(p, points, i, i, li)
    ensures PartialFactor(p, points, i, i + 1, li)
  {
  }

  lemma {:induction false} FactorStep(p: int, points: seq<Point>, i: nat, j: nat, li: int, num: int, den: int)
    requires IsPrime(p) && i < |points| && j < |points| && i != j
    requires PartialFactor(p, points, i, j, li)
    requires num == (0 - points[j].x) % p && den == (points[i].x - points[j].x) % p
    ensures Inverse(den, p) == None ==> !Distinct(p, Xs(points))
    ensures Inverse(den, p).Some? ==> PartialFactor(p, points, i, j + 1, (li * num * Inverse(den, p).value) % p)
  {
    var xs := Xs(points);
    InverseOfDifference(p, xs[i], xs[j]);
    if Inverse(den, p) == None {
      CongSym(p, xs[i], xs[j]);
    } else {
      LagrangeFactor(p, xs, i, j, li, num, Inverse(den, p).value);
    }
  }

  lemma {:induction false} SumStep(p: int, points: seq<Point>, i: nat, secret: int, li: int)
    requires p > 1 && i < |points|
    requires PartialSum(p, points, i, secret) && PartialFactor(p, points, i, |points|, li)
    ensures PartialSum(p, points, i + 1, (secret + points[i].y * li) % p)
  {
    LagrangeTerm(p, points, i, secret, li);
  }

  lemma {:induction false} SumEnd(p: int, points: seq<Point>, secret: int)
    requires p > 1 && PartialSum(p, points, |points|, secret)
    ensures Distinct(p, Xs(points)) && secret == SecretAtZero(points, p)
  {
    var xs := Xs(points);
    forall i, j | 0 <= i < j < |xs|
      ensures !Cong(p, xs[i], xs[j])
    {
      assert ApartFrom(p, xs, i, |xs|);
    }
    CongIffMod(p, secret, Eval(Lagrange(points, |points|, p), 0));
    DivUnique(secret, p, 0, secret);
  }

  lemma InverseOfResidue(p: int, a: int, b: int)
    requires p > 0 && Cong(p, a, b) && Inverse(a, p).Some?
    ensures Inverse(b, p) == Inverse(a, p)
  {
    var v := Inverse(a, p).value;
    CongSym(p, a, b);
    CongScale(p, b, a, v);
    CongTrans(p, b * v, a * v, 1);
    InverseUnique(p, b, v);
  }

  /** The inverse the loop asks for is missing exactly when the two abscissas agree modulo the prime. */
  lemma InverseOfDifference(p: int, xi: int, xj: int)
    requires IsPrime(p)
    ensures Inverse((xi - xj) % p, p).Some? <==> !Cong(p, xi, xj)
    ensures Inverse((xi - xj) % p, p) == Inverse(xi - xj, p)
  {
    var den := xi - xj;
    CongMod(p, den);
    if Inverse(den % p, p).Some? {
      InverseOfResidue(p, den % p, den);
    }
    if Inverse(den, p).Some? {
      InverseOfResidue(p, den, den % p);
    }
    InverseExists(den, p);
    if Cong(p, xi, xj) {
      CongRefl(p, xj);
      CongSub(p, xi, xj, xj, xj);
    }
    if Cong(p, den, 0) {
      CongFromDifference(p, xi, xj);
    }
  }

  lemma {:induction false} LagrangeFactor(p: int, xs: seq<int>, i: nat, j: nat, li: int, num: int, inverse: int)
    requires p > 1 && i < |xs| && j < |xs| && i != j
    requires Cong(p, li, Eval(Basis(xs, i, j, p), 0))
    requires num == (0 - xs[j]) % p && Inverse(xs[i] - xs[j], p) == Some(inverse)
    ensures Cong(p, (li * num * inverse) % p, Eval(Basis(xs, i, j + 1, p), 0))
  {
    var e := Eval(Basis(xs, i, j, p), 0);
    CongMod(p, 0 - xs[j]);
    CongMul(p, li, e, num, 0 - xs[j]);
    CongScale(p, li * num, e * (0 - xs[j]), inverse);
    EvalBasisStep(xs, i, j, p, 0);
    assert e * (0 - xs[j]) * inverse == inverse * ((0 - xs[j]) * e);
    ReduceStep(p, li * num * inverse, Eval(Basis(xs, i, j + 1, p), 0));
  }

  lemma {:induction false} LagrangeTerm(p: int, points: seq<Point>, i: nat, secret: int, li: int)
    requires p > 1 && i < |points|
    requires Cong(p, secret, Eval(Lagrange(points, i, p), 0))
    requires Cong(p, li, Eval(Basis(Xs(points), i, |points|, p), 0))
    ensures Cong(p, (secret + points[i].y * li) % p, Eval(Lagrange(points, i + 1, p), 0))
  {
    AddTerm(p, secret, Eval(Lagrange(points, i, p), 0), points[i].y, li, Eval(Basis(Xs(points), i, |points|, p), 0));
    EvalLagrangeStep(points, i, p, 0);
    ReduceStep(p, secret + points[i].y * li, Eval(Lagrange(points, i + 1, p), 0));
  }
}
