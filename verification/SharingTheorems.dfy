/**
 * What threshold sharing is for: any t shares give the secret back, fewer say
 * nothing about it, and the reconstruction does not depend on which shares are
 * used or in which order. Statements about the functions in module Sharding.
 */
module SharingTheorems {
  import opened Bytes
  import opened ModArith
  import opened Numerals
  import opened Polynomial
  import opened Sharding
  import opened Wrappers

  // ----------------------------------------------------------- correctness

  /** Every polynomial through the points, if short enough, has the interpolated value at zero. */
  lemma SecretIsValueAtZero(c: Poly, points: seq<Point>, p: int)
    requires IsPrime(p) && Distinct(p, Xs(points))
    requires |c| <= |points| && Through(c, points, p)
    ensures SecretAtZero(points, p) == Eval(c, 0) % p
  {
    var l := Lagrange(points, |points|, p);
    LagrangeInterpolates(points, p);
    InterpolationUnique(l, c, points, p);
    CongIffMod(p, Eval(l, 0), Eval(c, 0));
  }

  /** The points a client collects: share `ids[k]` of one sharing call, for each k. */
  function Collected(c: Poly, ids: seq<int>, p: int): (points: seq<Point>)
    requires p > 0
    ensures |points| == |ids|
    ensures Xs(points) == ids
  {
    seq(|ids|, k requires 0 <= k < |ids| => Point(ids[k], ShareValue(c, ids[k], p)))
  }

  lemma CollectedOnPolynomial(c: Poly, ids: seq<int>, p: int)
    requires p > 0
    ensures Through(c, Collected(c, ids, p), p)
  {
    forall k | 0 <= k < |ids|
      ensures Cong(p, Eval(c, ids[k]), ShareValue(c, ids[k], p))
    {
      CongMod(p, Eval(c, ids[k]));
    }
  }

  ghost predicate NodeIds(ids: seq<int>, n: int) {
    && (forall k :: 0 <= k < |ids| ==> 1 <= ids[k] <= n)
    && (forall j, k :: 0 <= j < k < |ids| ==> ids[j] != ids[k])
  }

  lemma NodeIdsDistinct(ids: seq<int>, n: int, p: int)
    requires NodeIds(ids, n) && n < p
    ensures Distinct(p, ids)
  {
    forall i, j | 0 <= i < j < |ids|
      ensures !Cong(p, ids[i], ids[j])
    {
      if Cong(p, ids[i], ids[j]) {
        ResidueUnique(p, ids[i], ids[j]);
      }
    }
  }

  /**
   * At least t distinct shares of one sharing call give back exactly the
   * shared bytes, leading zeros included, if and only if the number those
   * bytes spell is smaller than the prime.
   */
  lemma {:induction false} QuorumReconstructs(secret: seq<byte>, random: seq<int>, ids: seq<int>, n: int, p: int)
    requires IsPrime(p) && n < p && NodeIds(ids, n) && |random| + 1 <= |ids|
    ensures var points := Collected(Coefficients(secret, random), ids, p);
            && SecretAtZero(points, p) == FromBigEndian(secret) % p
            && (Reconstructed(points, |secret|, p) == Success(secret) <==> FromBigEndian(secret) < p)
  {
    var c, s := Coefficients(secret, random), FromBigEndian(secret);
    var points := Collected(c, ids, p);
    NodeIdsDistinct(ids, n, p);
    CollectedOnPolynomial(c, ids, p);
    SecretIsValueAtZero(c, points, p);
    assert Eval(c, 0) == s;
    FitsTheField(secret, p);
  }

  lemma {:induction false} FitsTheField(secret: seq<byte>, p: int)
    requires p > 0
    ensures ToBytes(FromBigEndian(secret) % p, |secret|) == Success(secret) <==> FromBigEndian(secret) < p
  {
    var s := FromBigEndian(secret);
    FromBigEndianBound(secret);
    BytesRoundTrip(secret);
    if s < p {
      DivUnique(s, p, 0, s);
    } else if ToBigEndian(s % p, |secret|) == secret {
      ToBigEndianInjective(s, s % p, |secret|);
    }
  }

  /** A share as the caller of a reconstruction passes it: its node id and its numeral read back. */
  function SharePoint(s: Shard): Point {
    Point(s.nodeId, match ParseHex(s.shard) case Some(y) => y case None => 0)
  }

  function SharePoints(shards: seq<Shard>): (points: seq<Point>)
    ensures |points| == |shards|
  {
    seq(|shards|, k requires 0 <= k < |shards| => SharePoint(shards[k]))
  }

  lemma HexParses(n: nat)
    ensures ParseHex(Hex(n)) == Some(n) && ParseHex(Print(n, 16)) == Some(n)
    ensures Hex(n)[..2] == "0x" && Parse(Hex(n)[2..], 16) == Some(n) && forall c :: c in Hex(n)[2..] ==> c in "0123456789abcdef"
  {
    hide Print, ParseDigits, DigitValue;
    PrintParses(n, 16);
    PrintUsesDigits(n, 16);
    assert Hex(n)[2..] == Print(n, 16);
    NoMark(Print(n, 16));
  }

  /** A numeral of printed digits has no "0x" in front. */
  lemma NoMark(s: string)
    requires forall c :: c in s ==> c in DIGITS
    ensures |s| >= 2 ==> s[1] != 'x' && s[1] != 'X'
  {
    if |s| >= 2 {
      assert s[1] in DIGITS;
    }
  }

  /**
   * The main theorem on the shares themselves: any t or more of the shares of
   * one call, in any order, reconstruct the bytes if and only if these fit the field.
   */
  lemma {:induction false} SharesReconstruct(secret: seq<byte>, random: seq<int>, n: nat, epoch: int, p: int, chosen: seq<Shard>)
    requires IsPrime(p) && n < p && |random| + 1 <= |chosen|
    requires forall k :: 0 <= k < |chosen| ==> chosen[k] in ShardList(Coefficients(secret, random), n, epoch, p)
    requires forall j, k :: 0 <= j < k < |chosen| ==> chosen[j] != chosen[k]
    ensures Reconstructed(SharePoints(chosen), |secret|, p) == Success(secret) <==> FromBigEndian(secret) < p
  {
    hide Reconstructed, Collected, ShardList, SharePoints, Coefficients, NodeIds;
    var c := Coefficients(secret, random);
    ChosenPoints(c, n, epoch, p, chosen);
    QuorumReconstructs(secret, random, NodeIdsOf(chosen), n, p);
  }

  lemma {:induction false} ChosenPoints(c: Poly, n: nat, epoch: int, p: int, chosen: seq<Shard>)
    requires p > 0 && forall k :: 0 <= k < |chosen| ==> chosen[k] in ShardList(c, n, epoch, p)
    requires forall j, k :: 0 <= j < k < |chosen| ==> chosen[j] != chosen[k]
    ensures NodeIds(NodeIdsOf(chosen), n)
    ensures SharePoints(chosen) == Collected(c, NodeIdsOf(chosen), p)
  {
    hide ShareValue, Hex, ParseHex, Eval, ShardList, SharePoint;
    forall k | 0 <= k < |chosen|
      ensures 1 <= chosen[k].nodeId <= n && chosen[k] == ShareOf(c, chosen[k].nodeId, epoch, p)
      ensures SharePoint(chosen[k]) == Point(chosen[k].nodeId, ShareValue(c, chosen[k].nodeId, p))
    {
      ShareReadsBack(c, n, epoch, p, chosen[k]);
    }
  }

  function NodeIdsOf(shards: seq<Shard>): (ids: seq<int>)
    ensures |ids| == |shards|
    ensures forall k :: 0 <= k < |shards| ==> ids[k] == shards[k].nodeId
  {
    seq(|shards|, k requires 0 <= k < |shards| => shards[k].nodeId)
  }

  function ShareOf(c: Poly, id: int, epoch: int, p: int): Shard
    requires p > 0
  {
    Shard(id, epoch, Hex(ShareValue(c, id, p)))
  }

  lemma ShareReadsBack(c: Poly, n: nat, epoch: int, p: int, s: Shard)
    requires p > 0 && s in ShardList(c, n, epoch, p)
    ensures 1 <= s.nodeId <= n && s == ShareOf(c, s.nodeId, epoch, p)
    ensures SharePoint(s) == Point(s.nodeId, ShareValue(c, s.nodeId, p))
  {
    HexParses(ShareValue(c, s.nodeId, p));
  }

  // -------------------------------------------------------------- secrecy

  /** Reduced coefficients of a sharing of `s` with threshold `t` that explain the observed shares. */
  ghost predicate Explains(c: Poly, t: nat, s: int, shares: seq<Point>, p: int) {
    && |c| == t && (forall i :: 0 <= i < t ==> 0 <= c[i] < p)
    && t > 0 && c[0] == s
    && Through(c, shares, p)
  }

  /**
   * Threshold secrecy as a count: whatever t - 1 nodes hold, every candidate
   * secret is explained by exactly one choice of the random coefficients.
   */
  lemma ExactlyOneExplanation(t: nat, s: int, shares: seq<Point>, p: int) returns (c: Poly)
    requires IsPrime(p) && |shares| == t - 1 && 0 <= s < p
    requires Distinct(p, Xs(shares)) && forall i :: 0 <= i < |shares| ==> !Cong(p, shares[i].x, 0)
    ensures Explains(c, t, s, shares, p)
    ensures forall d :: Explains(d, t, s, shares, p) ==> d == c
  {
    var points := shares + [Point(0, s)];
    WithZeroDistinct(shares, s, p);
    var l := Lagrange(points, t, p);
    LagrangeInterpolates(points, p);
    c := Reduce(l, p);
    ReduceThrough(l, points, p);
    assert Through(c, shares, p) by {
      forall i | 0 <= i < |shares|
        ensures Cong(p, Eval(c, shares[i].x), shares[i].y)
      {
        assert points[i] == shares[i];
      }
    }
    assert points[t - 1] == Point(0, s);
    EvalAtZero(c);
    ResidueUnique(p, c[0], s);
    forall d | Explains(d, t, s, shares, p)
      ensures d == c
    {
      EvalAtZero(d);
      CongRefl(p, s);
      assert Through(d, points, p) by {
        forall i | 0 <= i < |points|
          ensures Cong(p, Eval(d, points[i].x), points[i].y)
        {
          assert i < t - 1 ==> points[i] == shares[i];
        }
      }
      InterpolationUnique(d, c, points, p);
      forall i | 0 <= i < t
        ensures d[i] == c[i]
      {
        ResidueUnique(p, d[i], c[i]);
      }
    }
  }

  lemma WithZeroDistinct(shares: seq<Point>, s: int, p: int)
    requires Distinct(p, Xs(shares)) && forall i :: 0 <= i < |shares| ==> !Cong(p, shares[i].x, 0)
    ensures Distinct(p, Xs(shares + [Point(0, s)]))
  {
    var xs := Xs(shares + [Point(0, s)]);
    forall i, j | 0 <= i < j < |xs|
      ensures !Cong(p, xs[i], xs[j])
    {
      assert xs[i] == Xs(shares)[i];
      assert j < |shares| ==> xs[j] == Xs(shares)[j];
    }
  }

  lemma EvalAtZero(c: Poly)
    requires c != []
    ensures Eval(c, 0) == c[0]
  {
    assert 0 * Eval(c[1..], 0) == 0;
  }

  function Reduce(c: Poly, p: int): (r: Poly)
    requires p > 0
    ensures |r| == |c| && forall i :: 0 <= i < |r| ==> 0 <= r[i] < p
  {
    if c == [] then [] else [c[0] % p] + Reduce(c[1..], p)
  }

  lemma {:induction false} EvalReduce(c: Poly, x: int, p: int)
    requires p > 0
    ensures Cong(p, Eval(Reduce(c, p), x), Eval(c, x))
  {
    if c == [] {
      CongRefl(p, 0);
    } else {
      var r := Reduce(c, p);
      assert r[1..] == Reduce(c[1..], p);
      EvalReduce(c[1..], x, p);
      CongMod(p, c[0]);
      AddTerm(p, c[0] % p, c[0], x, Eval(r[1..], x), Eval(c[1..], x));
    }
  }

  lemma {:induction false} ReduceThrough(c: Poly, points: seq<Point>, p: int)
    requires p > 0 && Through(c, points, p)
    ensures Through(Reduce(c, p), points, p)
  {
    forall i | 0 <= i < |points|
      ensures Cong(p, Eval(Reduce(c, p), points[i].x), points[i].y)
    {
      EvalReduce(c, points[i].x, p);
      CongTrans(p, Eval(Reduce(c, p), points[i].x), Eval(c, points[i].x), points[i].y);
    }
  }

  // --------------------------------------- order and choice do not matter

  /** `points` in another order. */
  function Permuted(points: seq<Point>, order: seq<nat>): seq<Point>
    requires forall k :: 0 <= k < |order| ==> order[k] < |points|
  {
    seq(|order|, k requires 0 <= k < |order| => points[order[k]])
  }

  /** The value at zero, for honest or dishonest points, does not depend on their order. */
  lemma OrderIrrelevant(points: seq<Point>, order: seq<nat>, p: int)
    requires IsPrime(p) && Distinct(p, Xs(points)) && |order| == |points|
    requires forall k :: 0 <= k < |order| ==> order[k] < |points|
    requires forall j, k :: 0 <= j < k < |order| ==> order[j] != order[k]
    ensures Distinct(p, Xs(Permuted(points, order)))
    ensures SecretAtZero(Permuted(points, order), p) == SecretAtZero(points, p)
  {
    var other, xs := Permuted(points, order), Xs(points);
    forall i, j | 0 <= i < j < |other|
      ensures !Cong(p, Xs(other)[i], Xs(other)[j])
    {
      assert Xs(other)[i] == xs[order[i]] && Xs(other)[j] == xs[order[j]];
      if order[j] < order[i] && Cong(p, xs[order[i]], xs[order[j]]) {
        CongSym(p, xs[order[i]], xs[order[j]]);
      }
    }
    LagrangeInterpolates(points, p);
    SamePolynomial(points, other, p);
  }

  /** Any list of points on the interpolating polynomial, if long enough, has the same value at zero. */
  lemma {:induction false} SamePolynomial(points: seq<Point>, others: seq<Point>, p: int)
    requires IsPrime(p) && Distinct(p, Xs(points)) && Distinct(p, Xs(others)) && |points| <= |others|
    requires Through(Lagrange(points, |points|, p), others, p)
    ensures SecretAtZero(others, p) == SecretAtZero(points, p)
  {
    LagrangeInterpolates(points, p);
    SecretIsValueAtZero(Lagrange(points, |points|, p), others, p);
  }

  /** Further points on the same polynomial leave the value at zero alone. */
  lemma ExtraPointsIrrelevant(points: seq<Point>, all: seq<Point>, p: int)
    requires IsPrime(p) && points <= all && Distinct(p, Xs(all))
    requires forall i :: |points| <= i < |all| ==>
               Cong(p, Eval(Lagrange(points, |points|, p), all[i].x), all[i].y)
    ensures SecretAtZero(all, p) == SecretAtZero(points, p)
  {
    var l := Lagrange(points, |points|, p);
    forall i, j | 0 <= i < j < |points|
      ensures !Cong(p, Xs(points)[i], Xs(points)[j])
    {
      assert Xs(points)[i] == Xs(all)[i] && Xs(points)[j] == Xs(all)[j];
    }
    LagrangeInterpolates(points, p);
    forall i | 0 <= i < |all|
      ensures Cong(p, Eval(l, all[i].x), all[i].y)
    {
      assert i < |points| ==> all[i] == points[i];
    }
    SamePolynomial(points, all, p);
  }

  // ---------------------------------------------------------------- email

  /** The share strings in node order. */
  function ShareStrings(shards: seq<Shard>): (s: seq<string>)
    ensures |s| == |shards|
  {
    seq(|shards|, i requires 0 <= i < |shards| => shards[i].shard)
  }

  lemma HalfTheField()
    ensures MERSENNE_521 == 2 * Pow(256, 65) - 1
    ensures Pow(256, 65) > 0
  {
    PowPow(2, 8, 65);
    assert Pow(2, 8) == 256;
    PowAdd(2, 1, 520);
    PowPositive(2, 520);
  }

  /** Sixty-five bytes always spell a number below the field size. */
  lemma ShortSecretsFit(secret: seq<byte>)
    requires |secret| <= 65
    ensures FromBigEndian(secret) < MERSENNE_521
  {
    hide FromBigEndian, Pow;
    FromBigEndianBound(secret);
    PowMonotone(256, |secret|, 65);
    HalfTheField();
  }

  /** Node ids 1 to n. */
  function FirstNodes(n: nat): (ids: seq<int>)
    ensures |ids| == n
  {
    seq(n, i => i + 1)
  }

  /** The first k of n share strings read back as the points of nodes 1 to k. */
  lemma {:induction false} PointsOfShares(c: Poly, n: nat, epoch: int, p: int, k: nat)
    requires p > 0 && k <= n
    ensures PointsOf(ShareStrings(ShardList(c, n, epoch, p))[..k]) == Some(Collected(c, FirstNodes(k), p))
  {
    var shares := ShareStrings(ShardList(c, n, epoch, p));
    if k == 0 {
      assert shares[..k] == [] && Collected(c, FirstNodes(k), p) == [];
    } else {
      PointsOfShares(c, n, epoch, p, k - 1);
      assert shares[..k][..k - 1] == shares[..k - 1];
      HexParses(ShareValue(c, k, p));
      assert shares[k - 1] == Hex(ShareValue(c, k, p));
      CollectedStep(c, p, k);
    }
  }

  lemma CollectedStep(c: Poly, p: int, k: nat)
    requires p > 0 && k > 0
    ensures Collected(c, FirstNodes(k), p) == Collected(c, FirstNodes(k - 1), p) + [Point(k, ShareValue(c, k, p))]
  {
    assert FirstNodes(k) == FirstNodes(k - 1) + [k];
  }

  /** The leading byte bounds the number from below. */
  lemma {:induction false} LeadingByte(b: seq<byte>)
    requires b != []
    ensures FromBigEndian(b) >= b[0] * Pow(256, |b| - 1)
  {
    if |b| > 1 {
      var front := b[..|b| - 1];
      LeadingByte(front);
      assert 256 * (b[0] * Pow(256, |b| - 2)) == b[0] * Pow(256, |b| - 1);
    } else {
      assert Pow(256, 0) == 1;
    }
  }

  /** Bytes that do not start with 0 or 1, as no printable text does, fit the field exactly up to 65 of them. */
  lemma TextFitsExactly(b: seq<byte>)
    requires b != [] && b[0] >= 2
    ensures FromBigEndian(b) < MERSENNE_521 <==> |b| <= 65
  {
    if |b| <= 65 {
      ShortSecretsFit(b);
    } else {
      hide FromBigEndian, Pow;
      LeadingByte(b);
      PowMonotone(256, 65, |b| - 1);
      HalfTheField();
      AtLeastDouble(b[0], Pow(256, |b| - 1), Pow(256, 65));
    }
  }

  lemma AtLeastDouble(k: int, x: int, y: int)
    requires k >= 2 && x >= y >= 0
    ensures k * x >= 2 * y
  {
    assert k * x == 2 * x + (k - 2) * x;
  }

  /** An enrolled text email comes back exactly when it has at most 65 bytes; a longer one is lost. */
  lemma TextEmailRoundTrip(email: seq<byte>, random: seq<int>, n: nat)
    requires IsPrime(MERSENNE_521) && |random| == 2 && 3 <= n
    requires email != [] && email[0] >= 2
    ensures var e := Enrolled(email, random, n);
            ReconstructedEmail(ShareStrings(e.shards), e.length) == Success(email) <==> |email| <= 65
  {
    hide ReconstructedEmail, Enrolled, ShareStrings, FromBigEndian, Pow;
    EmailRoundTrip(email, random, n);
    TextFitsExactly(email);
  }

  /**
   * Enrolling an email with at least three nodes and reconstructing it from
   * the share strings and the length the enrollment reports gives the email
   * back if and only if it fits the field.
   */
  lemma {:induction false} EmailRoundTrip(email: seq<byte>, random: seq<int>, n: nat)
    requires IsPrime(MERSENNE_521) && |random| == 2 && 3 <= n
    ensures var e := Enrolled(email, random, n);
            && (ReconstructedEmail(ShareStrings(e.shards), e.length) == Success(email)
                <==> FromBigEndian(email) < MERSENNE_521)
  {
    LargeField();
    PointsOfShares(Coefficients(email, random), n, 1, MERSENNE_521, 3);
    FirstThree(email, random, MERSENNE_521);
  }

  lemma {:induction false} FirstThree(email: seq<byte>, random: seq<int>, p: int)
    requires IsPrime(p) && |random| == 2 && p > 3
    ensures Reconstructed(Collected(Coefficients(email, random), FirstNodes(3), p), |email|, p) == Success(email)
       <==> FromBigEndian(email) < p
  {
    QuorumReconstructs(email, random, FirstNodes(3), 3, p);
  }

  /** As many shares as the enrollment's threshold says, any of them in any order, give the email back. */
  lemma ThresholdSuffices(email: seq<byte>, random: seq<int>, n: nat, chosen: seq<Shard>)
    requires IsPrime(MERSENNE_521) && |random| == 2 && n < MERSENNE_521
    requires |chosen| >= Enrolled(email, random, n).threshold
    requires forall k :: 0 <= k < |chosen| ==> chosen[k] in Enrolled(email, random, n).shards
    requires forall j, k :: 0 <= j < k < |chosen| ==> chosen[j] != chosen[k]
    ensures MERSENNE_521 > 3
    ensures Reconstructed(SharePoints(chosen), Enrolled(email, random, n).length, MERSENNE_521) == Success(email)
       <==> FromBigEndian(email) < MERSENNE_521
  {
    hide Reconstructed, SharePoints, ShardList, Coefficients, FromBigEndian;
    LargeField();
    SharesReconstruct(email, random, n, 1, MERSENNE_521, chosen);
  }

  ghost predicate OnlyExplanation(c: Poly, t: nat, s: int, shares: seq<Point>, p: int) {
    Explains(c, t, s, shares, p) && forall d :: Explains(d, t, s, shares, p) ==> d == c
  }

  /** One share fewer, whichever they are, is explained by every candidate for the email's number, by each in exactly one way. */
  lemma BelowThreshold(email: seq<byte>, random: seq<int>, n: nat, chosen: seq<Shard>, candidate: int) returns (c: Poly)
    requires IsPrime(MERSENNE_521) && |random| == 2 && n < MERSENNE_521 && 0 <= candidate < MERSENNE_521
    requires |chosen| == Enrolled(email, random, n).threshold - 1
    requires forall k :: 0 <= k < |chosen| ==> chosen[k] in Enrolled(email, random, n).shards
    requires forall j, k :: 0 <= j < k < |chosen| ==> chosen[j] != chosen[k]
    ensures OnlyExplanation(c, |chosen| + 1, candidate, SharePoints(chosen), MERSENNE_521)
  {
    hide Explains, ShardList, Coefficients, SharePoints, Collected, FromBigEndian, Pow;
    LargeField();
    var p, ids := MERSENNE_521, NodeIdsOf(chosen);
    ChosenPoints(Coefficients(email, random), n, 1, p, chosen);
    NodeIdsDistinct(ids, n, p);
    forall i | 0 <= i < |chosen|
      ensures !Cong(p, SharePoints(chosen)[i].x, 0)
    {
      assert Xs(SharePoints(chosen))[i] == ids[i];
      NotZero(p, ids[i]);
    }
    c := ExactlyOneExplanation(|chosen| + 1, candidate, SharePoints(chosen), p);
  }

  lemma NotZero(p: int, x: int)
    requires 0 < x < p
    ensures !Cong(p, x, 0)
  {
    if Cong(p, x, 0) {
      ResidueUnique(p, x, 0);
    }
  }

  /** The enrollment demonstration: enroll, hand out the share strings, collect them and reconstruct with the reported length. */
  method EnrollAndReconstruct(email: seq<byte>, random: seq<int>, n: nat) returns (back: Result<seq<byte>, ShardError>)
    requires IsPrime(MERSENNE_521) && |random| == 2 && 3 <= n
    ensures back == Success(email) <==> FromBigEndian(email) < MERSENNE_521
  {
    hide Enrolled, ReconstructedEmail, FromBigEndian;
    var enrollment := EnrollEmail(email, random, n);
    var collected: seq<string> := [];
    for i := 0 to |enrollment.shards|
      invariant collected == ShareStrings(enrollment.shards)[..i]
    {
      collected := collected + [enrollment.shards[i].shard];
    }
    assert collected == ShareStrings(enrollment.shards);
    EmailRoundTrip(email, random, n);
    back := ReconstructEmail(collected, enrollment.length);
  }

  /** `b` are `len` bytes that spell `n`. */
  ghost predicate Spells(b: seq<byte>, n: nat, len: nat) {
    |b| == len && FromBigEndian(b) == n
  }

  /** The conversion to bytes succeeds exactly with the bytes of that length that spell the number, and overflows when there are none. */
  lemma ToBytesExactly(n: nat, len: nat)
    ensures forall b: seq<byte> :: Spells(b, n, len) <==> ToBytes(n, len) == Success(b)
    ensures ToBytes(n, len) == Failure(Overflow) <==> forall b: seq<byte> :: !Spells(b, n, len)
  {
    hide FromBigEndian, ToBigEndian, Pow;
    forall b: seq<byte>
      ensures Spells(b, n, len) <==> ToBytes(n, len) == Success(b)
    {
      FromBigEndianBound(b);
      BytesRoundTrip(b);
      if n < Pow(256, len) {
        IntegerRoundTrip(n, len);
      }
    }
    if n < Pow(256, len) {
      IntegerRoundTrip(n, len);
      assert Spells(ToBigEndian(n, len), n, len);
    }
  }

  /** Reconstruction finds no inverse exactly when two of the points have abscissas that agree modulo the prime. */
  lemma NotInvertibleExactly(points: seq<Point>, len: nat, p: int)
    requires p > 1
    ensures Reconstructed(points, len, p) == Failure(NotInvertible)
       <==> exists i, j :: 0 <= i < j < |points| && points[i].x % p == points[j].x % p
  {
    hide SecretAtZero;
    forall i, j | 0 <= i < j < |points|
      ensures Cong(p, Xs(points)[i], Xs(points)[j]) <==> points[i].x % p == points[j].x % p
    {
      CongIffMod(p, points[i].x, points[j].x);
    }
  }

  /** An email's reconstruction refuses exactly the share lists with a malformed numeral among the first three. */
  lemma BadNumeralExactly(shares: seq<string>, len: nat)
    ensures ReconstructedEmail(shares, len) == Failure(BadNumeral)
       <==> exists k :: 0 <= k < |shares| && k < 3 && ParseHex(shares[k]) == None
  {
    hide Reconstructed, PointsOf, ParseHex;
    LargeField();
    var first := if |shares| < 3 then shares else shares[..3];
    MalformedExactly(first);
    if PointsOf(first).Some? {
      NeverBadNumeral(PointsOf(first).value, len, MERSENNE_521);
    }
    assert forall k :: 0 <= k < |first| ==> first[k] == shares[k];
  }

  lemma NeverBadNumeral(points: seq<Point>, len: nat, p: int)
    requires p > 1
    ensures Reconstructed(points, len, p) != Failure(BadNumeral)
  {
  }

  lemma {:induction false} MalformedExactly(shares: seq<string>)
    ensures PointsOf(shares) == None <==> exists k :: 0 <= k < |shares| && ParseHex(shares[k]) == None
  {
    hide ParseHex;
    if shares != [] {
      var front := shares[..|shares| - 1];
      MalformedExactly(front);
      assert forall k :: 0 <= k < |front| ==> front[k] == shares[k];
    }
  }
}
