/**
 * Exclusive-or sharing of a bit list among parties and the packing of bits
 * into bytes. Models src/web-client/src/mpc_util.ts.
 */
module XorShares {
  import opened Bytes
  import opened Numerals

  // ---------------------------------------------------------- bits of bytes

  /** The last `k` binary digits of `x`, most significant first. */
  function HighFirst(x: nat, k: nat): (bits: seq<bool>)
    ensures |bits| == k
  {
    if k == 0 then [] else HighFirst(x / 2, k - 1) + [x % 2 == 1]
  }

  function ValueOf(bits: seq<bool>): nat {
    if bits == [] then 0
    else 2 * ValueOf(bits[..|bits| - 1]) + if bits[|bits| - 1] then 1 else 0
  }

  lemma {:induction false} ValueOfHighFirst(x: nat, k: nat)
    requires x < Pow(2, k)
    ensures ValueOf(HighFirst(x, k)) == x
  {
    if k > 0 {
      ValueOfHighFirst(x / 2, k - 1);
      assert HighFirst(x, k)[..k - 1] == HighFirst(x / 2, k - 1);
    }
  }

  lemma {:induction false} ValueBound(bits: seq<bool>)
    ensures ValueOf(bits) < Pow(2, |bits|)
  {
    if bits != [] {
      ValueBound(bits[..|bits| - 1]);
    }
  }

  function Bits(bytes: seq<byte>): (bits: seq<bool>)
    ensures |bits| == 8 * |bytes|
  {
    if bytes == [] then [] else Bits(bytes[..|bytes| - 1]) + HighFirst(bytes[|bytes| - 1], 8)
  }

  /** `padStart(width, '0')` */
  function PadStart(s: string, width: nat): (p: string)
    ensures |p| == if |s| < width then width else |s|
    decreases width - |s|
  {
    if |s| >= width then s else PadStart("0" + s, width)
  }

  function ZeroDigits(n: nat): (z: string)
    ensures |z| == n
  {
    if n == 0 then "" else ZeroDigits(n - 1) + "0"
  }

  lemma {:induction false} PadStartIs(s: string, width: nat)
    requires |s| <= width
    ensures PadStart(s, width) == ZeroDigits(width - |s|) + s
    decreases width - |s|
  {
    if |s| < width {
      PadStartIs("0" + s, width);
      assert ZeroDigits(width - |s| - 1) + ("0" + s) == ZeroDigits(width - |s|) + s;
    }
  }

  function Ones(s: string): (bits: seq<bool>)
    ensures |bits| == |s|
  {
    seq(|s|, i requires 0 <= i < |s| => s[i] == '1')
  }

  lemma {:induction false} ZeroDigitsAreHighFirst(k: nat)
    ensures Ones(ZeroDigits(k)) == HighFirst(0, k)
  {
    if k > 0 {
      ZeroDigitsAreHighFirst(k - 1);
    }
  }

  lemma OnesAppend(s: string, c: char)
    ensures Ones(s + [c]) == Ones(s) + [c == '1']
  {
  }

  /** The padded binary numeral spells the binary digits. */
  lemma {:induction false} PaddedNumeral(x: nat, k: nat)
    requires 0 < k && x < Pow(2, k)
    ensures |Print(x, 2)| <= k && Ones(ZeroDigits(k - |Print(x, 2)|) + Print(x, 2)) == HighFirst(x, k)
    decreases k
  {
    hide Print, Ones, HighFirst, ZeroDigits;
    NumeralStep(x);
    HighStep(x, k);
    if x < 2 {
      assert x / 2 == 0 && x % 2 == x;
      ZeroDigitsAreHighFirst(k - 1);
      OnesAppend(ZeroDigits(k - 1), DIGITS[x]);
    } else {
      var q := Print(x / 2, 2);
      PaddedNumeral(x / 2, k - 1);
      OnesAppend(ZeroDigits(k - 1 - |q|) + q, DIGITS[x % 2]);
      assert ZeroDigits(k - 1 - |q|) + Print(x, 2) == (ZeroDigits(k - 1 - |q|) + q) + [DIGITS[x % 2]];
    }
  }

  lemma NumeralStep(x: nat)
    ensures Print(x, 2) == if x < 2 then [DIGITS[x]] else Print(x / 2, 2) + [DIGITS[x % 2]]
    ensures DIGITS[x % 2] == '1' <==> x % 2 == 1
  {
    assert DIGITS[0] == '0' && DIGITS[1] == '1';
  }

  lemma HighStep(x: nat, k: nat)
    requires 0 < k && x < Pow(2, k)
    ensures HighFirst(x, k) == HighFirst(x / 2, k - 1) + [x % 2 == 1]
    ensures x / 2 < Pow(2, k - 1)
    ensures x >= 2 ==> k > 1
  {
    hide HighFirst;
    HighLast(x, k);
    assert Pow(2, 1) == 2;
  }

  lemma HighLast(x: nat, k: nat)
    requires 0 < k
    ensures HighFirst(x, k) == HighFirst(x / 2, k - 1) + [x % 2 == 1]
  {
  }

  lemma ByteNumeral(x: byte)
    ensures Ones(PadStart(Print(x, 2), 8)) == HighFirst(x, 8)
  {
    assert Pow(2, 8) == 256;
    PaddedNumeral(x, 8);
    PadStartIs(Print(x, 2), 8);
  }

  method ConvertBytesToBits(bytes: seq<byte>) returns (bits: seq<bool>)
    ensures bits == Bits(bytes)
  {
    hide Print, PadStart, HighFirst;
    bits := [];
    for i := 0 to |bytes|
      invariant bits == Bits(bytes[..i])
    {
      var numeral := PadStart(Print(bytes[i], 2), 8);
      ByteNumeral(bytes[i]);
      ghost var done := bits;
      for j := 0 to |numeral|
        invariant bits == done + Ones(numeral)[..j]
      {
        bits := bits + [numeral[j] == '1'];
      }
      assert bytes[..i + 1][..i] == bytes[..i];
    }
    assert bytes[..|bytes|] == bytes;
  }

  // ---------------------------------------------------------------- packing

  function ByteCount(bits: nat): nat {
    (bits + 7) / 8
  }

  /** The group of bits that byte `k` gets from the first `n` bits. */
  function Group(bits: seq<bool>, n: nat, k: nat): (g: seq<bool>)
    requires n <= |bits|
    ensures |g| <= 8
  {
    if n <= 8 * k then [] else if n >= 8 * k + 8 then bits[8 * k..8 * k + 8] else bits[8 * k..n]
  }

  lemma BoundedProduct(v: int, p: int, q: int)
    requires 0 <= v < p && q > 0
    ensures 0 <= v * q < p * q
  {
  }

  /** A group of at most eight bits as a byte, missing low bits clear. */
  function GroupByte(g: seq<bool>): byte
    requires |g| <= 8
  {
    GroupBound(g);
    ValueOf(g) * Pow(2, 8 - |g|)
  }

  lemma GroupBound(g: seq<bool>)
    requires |g| <= 8
    ensures 0 <= ValueOf(g) * Pow(2, 8 - |g|) < 256
  {
    var v, p, q := ValueOf(g), Pow(2, |g|), Pow(2, 8 - |g|);
    ValueBound(g);
    PowAdd(2, |g|, 8 - |g|);
    assert Pow(2, 8) == 256;
    PowPositive(2, 8 - |g|);
    BoundedProduct(v, p, q);
  }

  function Packed(bits: seq<bool>): (bytes: seq<byte>)
    ensures |bytes| == ByteCount(|bits|)
  {
    seq(ByteCount(|bits|), k requires 0 <= k < ByteCount(|bits|) => GroupByte(Group(bits, |bits|, k)))
  }

  /** The next bit sets its own, still clear, place in its byte and touches no other. */
  lemma PackNext(bits: seq<bool>, n: nat)
    requires n < |bits|
    ensures GroupByte(Group(bits, n + 1, n / 8))
         == GroupByte(Group(bits, n, n / 8)) + if bits[n] then Pow(2, 7 - n % 8) else 0
    ensures forall k: nat :: k != n / 8 ==> Group(bits, n + 1, k) == Group(bits, n, k)
  {
    hide GroupByte, Group, Pow;
    GroupGrows(bits, n);
    AppendBit(Group(bits, n, n / 8), bits[n]);
    forall k: nat | k != n / 8
      ensures Group(bits, n + 1, k) == Group(bits, n, k)
    {
      GroupStays(bits, n, k);
    }
  }

  lemma GroupGrows(bits: seq<bool>, n: nat)
    requires n < |bits|
    ensures Group(bits, n + 1, n / 8) == Group(bits, n, n / 8) + [bits[n]]
    ensures |Group(bits, n, n / 8)| == n % 8
  {
    var k := n / 8;
    assert bits[8 * k..n] + [bits[n]] == bits[8 * k..n + 1];
  }

  lemma GroupStays(bits: seq<bool>, n: nat, k: nat)
    requires n < |bits| && k != n / 8
    ensures Group(bits, n + 1, k) == Group(bits, n, k)
  {
  }

  /** No bits make a clear byte. */
  lemma NothingPacked(bits: seq<bool>, k: nat)
    ensures GroupByte(Group(bits, 0, k)) == 0
  {
  }

  lemma {:induction false} AppendBit(g: seq<bool>, b: bool)
    requires |g| < 8
    ensures GroupByte(g + [b]) == GroupByte(g) + if b then Pow(2, 7 - |g|) else 0
  {
    hide ValueOf, Pow;
    var v, w, p, d := ValueOf(g), ValueOf(g + [b]), Pow(2, 7 - |g|), if b then 1 else 0;
    ValueAppend(g, b);
    PowStep(7 - |g|);
    assert Pow(2, 8 - |g|) == 2 * p && Pow(2, 8 - |g + [b]|) == p;
    assert GroupByte(g) == v * (2 * p) && GroupByte(g + [b]) == w * p;
    hide GroupByte;
    Doubled(v, p, w, d);
  }

  lemma PowStep(e: nat)
    ensures Pow(2, e + 1) == 2 * Pow(2, e)
  {
  }

  lemma ValueAppend(g: seq<bool>, b: bool)
    ensures ValueOf(g + [b]) == 2 * ValueOf(g) + if b then 1 else 0
  {
    assert (g + [b])[..|g|] == g;
  }

  lemma Doubled(v: int, p: int, w: int, d: int)
    requires w == 2 * v + d && 0 <= d <= 1
    ensures w * p == v * (2 * p) + if d == 1 then p else 0
  {
    assert (2 * v) * p == 2 * (v * p) == v * (2 * p);
    assert w * p == (2 * v) * p + d * p;
  }

  /** The bytes that `bitsToB64` hands to Base64. */
  method PackBits(bits: seq<bool>) returns (bytes: array<byte>)
    ensures fresh(bytes) && bytes[..] == Packed(bits)
  {
    hide GroupByte, Group, Pow;
    bytes := new byte[(|bits| + 7) / 8](_ => 0);
    forall k | 0 <= k < bytes.Length
      ensures GroupByte(Group(bits, 0, k)) == 0
    {
      NothingPacked(bits, k);
    }
    for i := 0 to |bits|
      invariant forall k :: 0 <= k < bytes.Length ==> bytes[k] == GroupByte(Group(bits, i, k))
    {
      PackNext(bits, i);
      if bits[i] {
        bytes[i / 8] := bytes[i / 8] + Pow(2, 7 - i % 8);
      }
    }
  }

  lemma {:induction false} BitsAt(bytes: seq<byte>, k: nat)
    requires k < |bytes|
    ensures Bits(bytes)[8 * k..8 * k + 8] == HighFirst(bytes[k], 8)
  {
    var front := bytes[..|bytes| - 1];
    if k < |front| {
      BitsAt(front, k);
      assert Bits(bytes)[8 * k..8 * k + 8] == Bits(front)[8 * k..8 * k + 8];
    } else {
      assert Bits(bytes)[8 * k..8 * k + 8] == HighFirst(bytes[k], 8);
    }
  }

  /** Packing the bits of some bytes gives the bytes back. */
  lemma PackInvertsConvert(bytes: seq<byte>)
    ensures Packed(Bits(bytes)) == bytes
  {
    forall k | 0 <= k < |bytes|
      ensures GroupByte(Group(Bits(bytes), 8 * |bytes|, k)) == bytes[k]
    {
      BitsAt(bytes, k);
      assert Pow(2, 8) == 256 && Pow(2, 0) == 1;
      ValueOfHighFirst(bytes[k], 8);
    }
  }

  // ------------------------------------------------------- bit by bit

  lemma {:induction false} HighFirstAt(x: nat, k: nat, i: nat)
    requires i < k
    ensures Pow(2, k - 1 - i) > 0
    ensures HighFirst(x, k)[i] <==> (x / Pow(2, k - 1 - i)) % 2 == 1
  {
    PowPositive(2, k - 1 - i);
    if i < k - 1 {
      HighFirstAt(x / 2, k - 1, i);
      HalfThenDivide(x, Pow(2, k - 2 - i));
    }
  }

  /** Bit `i` of byte `k`, the highest being bit 0, stands at 8 * k + i. */
  lemma BitAt(bytes: seq<byte>, k: nat, i: nat)
    requires k < |bytes| && i < 8
    ensures Pow(2, 7 - i) > 0
    ensures Bits(bytes)[8 * k + i] <==> (bytes[k] / Pow(2, 7 - i)) % 2 == 1
  {
    hide HighFirst, Bits, Pow;
    BitsAt(bytes, k);
    HighFirstAt(bytes[k], 8, i);
    assert Bits(bytes)[8 * k..8 * k + 8][i] == Bits(bytes)[8 * k + i];
  }

  /** The highest bit of the first packed byte is bit 0; bit `j` stands in byte j / 8, and places past the end are clear. */
  lemma PackedBit(bits: seq<bool>, j: nat)
    requires j < 8 * ByteCount(|bits|)
    ensures Pow(2, 7 - j % 8) > 0
    ensures (Packed(bits)[j / 8] / Pow(2, 7 - j % 8)) % 2 == 1 <==> j < |bits| && bits[j]
  {
    hide GroupByte, HighFirst, Pow;
    var k, i := j / 8, j % 8;
    var g := Group(bits, |bits|, k);
    GroupSpelled(g);
    HighFirstAt(GroupByte(g), 8, i);
    assert (g + Clear(8 - |g|))[i] <==> i < |g| && g[i];
    GroupAt(bits, j);
  }

  lemma GroupAt(bits: seq<bool>, j: nat)
    requires j < 8 * ByteCount(|bits|)
    ensures var g := Group(bits, |bits|, j / 8);
            j % 8 < |g| && g[j % 8] <==> j < |bits| && bits[j]
  {
  }

  /** A group's byte spells the group and then clear bits. */
  lemma GroupSpelled(g: seq<bool>)
    requires |g| <= 8
    ensures HighFirst(GroupByte(g), 8) == g + Clear(8 - |g|)
  {
    hide HighFirst, ValueOf;
    var padded := g + Clear(8 - |g|);
    PaddedValue(g, 8 - |g|);
    HighFirstOfValue(padded);
  }

  lemma {:induction false} PaddedValue(g: seq<bool>, n: nat)
    ensures ValueOf(g + Clear(n)) == ValueOf(g) * Pow(2, n)
  {
    hide ValueOf, Pow;
    PowStep(if n > 0 then n - 1 else 0);
    if n == 0 {
      assert g + Clear(0) == g;
      PowZero();
    } else {
      PaddedValue(g, n - 1);
      assert g + Clear(n) == (g + Clear(n - 1)) + [false];
      ValueAppend(g + Clear(n - 1), false);
      assert 2 * (ValueOf(g) * Pow(2, n - 1)) == ValueOf(g) * (2 * Pow(2, n - 1));
    }
  }

  lemma PowZero()
    ensures Pow(2, 0) == 1
  {
  }

  lemma {:induction false} HighFirstOfValue(bits: seq<bool>)
    ensures HighFirst(ValueOf(bits), |bits|) == bits
  {
    if bits != [] {
      var front, last := bits[..|bits| - 1], bits[|bits| - 1];
      HighFirstOfValue(front);
      assert bits == front + [last];
      assert ValueOf(bits) == 2 * ValueOf(front) + if last then 1 else 0;
    }
  }

  // ----------------------------------------------------------------- shares

  function XorBits(a: seq<bool>, b: seq<bool>): (c: seq<bool>)
    requires |a| == |b|
    ensures |c| == |a| && forall i :: 0 <= i < |a| ==> c[i] == (a[i] != b[i])
  {
    seq(|a|, i requires 0 <= i < |a| => a[i] != b[i])
  }

  ghost predicate AllOfLength(shares: seq<seq<bool>>, len: nat) {
    forall i :: 0 <= i < |shares| ==> |shares[i]| == len
  }

  /** `start` mixed with every share. */
  function XorAll(start: seq<bool>, shares: seq<seq<bool>>): (c: seq<bool>)
    requires AllOfLength(shares, |start|)
    ensures |c| == |start|
  {
    if shares == [] then start else XorBits(XorAll(start, shares[..|shares| - 1]), shares[|shares| - 1])
  }

  function Clear(len: nat): (c: seq<bool>)
    ensures |c| == len && forall i :: 0 <= i < len ==> !c[i]
  {
    seq(len, _ => false)
  }

  /** What the parties together hold. */
  function Combined(shares: seq<seq<bool>>, len: nat): (c: seq<bool>)
    requires AllOfLength(shares, len)
    ensures |c| == len
  {
    XorAll(Clear(len), shares)
  }

  /** `random[i - 1]` holds the draws for party i; the code tests their parity. */
  method GenerateXorShares(input: seq<bool>, numParties: nat, random: seq<seq<nat>>) returns (shares: seq<seq<bool>>)
    requires |random| == (if numParties == 0 then 0 else numParties - 1)
    requires forall i :: 0 <= i < |random| ==> |random[i]| == |input|
    ensures |shares| == |random| + 1 && AllOfLength(shares, |input|)
    ensures forall i :: 0 < i < |shares| ==> shares[i] == Even(random[i - 1])
    ensures Combined(shares, |input|) == input
  {
    var drawn: seq<seq<bool>> := [];
    var currentXor := input;
    for i := 1 to |random| + 1
      invariant |drawn| == i - 1 && AllOfLength(drawn, |input|) && |currentXor| == |input|
      invariant forall k :: 0 <= k < |drawn| ==> drawn[k] == Even(random[k])
      invariant currentXor == XorAll(input, drawn)
    {
      var share := Even(random[i - 1]);
      ghost var had := drawn;
      drawn := drawn + [share];
      assert drawn[..|drawn| - 1] == had;
      currentXor := XorBits(currentXor, share);
    }
    shares := [currentXor] + drawn;
    SharesCombine(input, drawn);
  }

  function Even(draws: seq<nat>): (s: seq<bool>)
    ensures |s| == |draws|
  {
    seq(|draws|, i requires 0 <= i < |draws| => draws[i] % 2 == 0)
  }

  /** No share is ruled out: whatever the other parties are to hold, some draw of bytes gives it. */
  lemma EveryShareDrawn(shares: seq<seq<bool>>) returns (random: seq<seq<nat>>)
    ensures |random| == |shares|
    ensures forall i :: 0 <= i < |shares| ==> Even(random[i]) == shares[i] && forall v :: v in random[i] ==> v < 256
  {
    random := seq(|shares|, i requires 0 <= i < |shares| => DrawFor(shares[i]));
    forall i | 0 <= i < |shares|
      ensures Even(random[i]) == shares[i]
    {
      assert random[i] == DrawFor(shares[i]);
    }
  }

  function DrawFor(share: seq<bool>): (draws: seq<nat>)
    ensures |draws| == |share| && forall k :: 0 <= k < |share| ==> draws[k] == if share[k] then 0 else 1
  {
    seq(|share|, k requires 0 <= k < |share| => if share[k] then 0 else 1)
  }

  /** How many of the shares have bit `i` set. */
  function SetCount(shares: seq<seq<bool>>, i: nat): nat {
    if shares == [] then 0
    else SetCount(shares[..|shares| - 1], i)
         + if i < |shares[|shares| - 1]| && shares[|shares| - 1][i] then 1 else 0
  }

  /** A bit of what the parties hold together is set when an odd number of shares have it set. */
  lemma {:induction false} CombinedIsParity(shares: seq<seq<bool>>, len: nat, i: nat)
    requires AllOfLength(shares, len) && i < len
    ensures Combined(shares, len)[i] <==> SetCount(shares, i) % 2 == 1
    decreases |shares|
  {
    if shares != [] {
      CombinedIsParity(shares[..|shares| - 1], len, i);
    }
  }

  /** Mixing in a start value commutes with the shares. */
  lemma {:induction false} XorAllFrom(a: seq<bool>, b: seq<bool>, shares: seq<seq<bool>>)
    requires |a| == |b| && AllOfLength(shares, |a|)
    ensures XorAll(XorBits(a, b), shares) == XorBits(XorAll(a, shares), b)
    decreases |shares|
  {
    if shares != [] {
      XorAllFrom(a, b, shares[..|shares| - 1]);
    }
  }

  lemma {:induction false} CombinedCons(first: seq<bool>, rest: seq<seq<bool>>)
    requires AllOfLength(rest, |first|)
    ensures AllOfLength([first] + rest, |first|)
    ensures Combined([first] + rest, |first|) == XorAll(first, rest)
    decreases |rest|
  {
    if rest == [] {
      var one, len := [first] + rest, |first|;
      assert one == [first] && one[..0] == [];
      assert Combined(one, len) == XorBits(XorAll(Clear(len), one[..0]), first);
      assert XorBits(Clear(len), first) == first;
    } else {
      CombinedCons(first, rest[..|rest| - 1]);
      assert ([first] + rest)[..|rest|] == [first] + rest[..|rest| - 1];
    }
  }

  /** Share zero, the input mixed with the drawn shares, makes all of them combine to the input. */
  lemma {:induction false} SharesCombine(input: seq<bool>, drawn: seq<seq<bool>>)
    requires AllOfLength(drawn, |input|)
    ensures Combined([XorAll(input, drawn)] + drawn, |input|) == input
  {
    CombinedCons(XorAll(input, drawn), drawn);
    XorTwice(input, drawn);
  }

  lemma {:induction false} XorTwice(input: seq<bool>, shares: seq<seq<bool>>)
    requires AllOfLength(shares, |input|)
    ensures XorAll(XorAll(input, shares), shares) == input
    decreases |shares|
  {
    if shares != [] {
      var front, last := shares[..|shares| - 1], shares[|shares| - 1];
      XorTwice(input, front);
      XorAllFrom(XorAll(input, front), last, front);
      assert XorBits(XorBits(input, last), last) == input;
    }
  }

  /** Changing one share changes the combination by just as much. */
  lemma {:induction false} CombinedUpdate(shares: seq<seq<bool>>, len: nat, m: nat, x: seq<bool>)
    requires AllOfLength(shares, len) && m < |shares| && |x| == len
    ensures AllOfLength(shares[m := x], len)
    ensures Combined(shares[m := x], len) == XorBits(XorBits(Combined(shares, len), shares[m]), x)
    decreases |shares|
  {
    var front, last := shares[..|shares| - 1], shares[|shares| - 1];
    if m == |shares| - 1 {
      assert shares[m := x][..|shares| - 1] == front;
    } else {
      CombinedUpdate(front, len, m, x);
      assert shares[m := x][..|shares| - 1] == front[m := x];
    }
  }

  /**
   * Perfect secrecy as a count: whichever party's share is missing, the
   * others are consistent with every secret through exactly one value of it.
   */
  lemma OneCompletion(shares: seq<seq<bool>>, len: nat, m: nat, secret: seq<bool>) returns (x: seq<bool>)
    requires AllOfLength(shares, len) && m < |shares| && |secret| == len
    ensures |x| == len && AllOfLength(shares[m := x], len) && Combined(shares[m := x], len) == secret
    ensures forall y: seq<bool> :: |y| == len && AllOfLength(shares[m := y], len) ==>
              (Combined(shares[m := y], len) == secret ==> y == x)
  {
    var others := XorBits(Combined(shares, len), shares[m]);
    x := XorBits(others, secret);
    CombinedUpdate(shares, len, m, x);
    assert XorBits(others, x) == secret;
    forall y: seq<bool> | |y| == len && AllOfLength(shares[m := y], len) && Combined(shares[m := y], len) == secret
      ensures y == x
    {
      CombinedUpdate(shares, len, m, y);
      forall i | 0 <= i < len
        ensures y[i] == x[i]
      {
        assert secret[i] == (others[i] != y[i]);
      }
    }
  }
}
