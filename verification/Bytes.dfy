/**
 * Bytes as numbers below 256: bitwise XOR, big-endian integers and bit lists.
 * Every component that reads or writes a wire format uses these definitions.
 */
module Bytes {
  import opened ModArith
  import opened Wrappers

  type byte = x: int | 0 <= x < 256

  const LF: byte := 10

  /** The characters of a text as bytes. */
  function Ascii(text: string): (bytes: seq<byte>)
    requires forall i :: 0 <= i < |text| ==> text[i] as int < 128
    ensures |bytes| == |text|
  {
    seq(|text|, i requires 0 <= i < |text| => text[i] as int)
  }

  /** The first `c` in `s` at or after `from`. */
  function Find(s: seq<byte>, c: byte, from: nat): (r: Option<nat>)
    requires from <= |s|
    ensures r.Some? ==> from <= r.value < |s|
    decreases |s| - from
  {
    if from == |s| then None
    else if s[from] == c then Some(from)
    else Find(s, c, from + 1)
  }

  lemma {:induction false} FindSpec(s: seq<byte>, c: byte, from: nat)
    requires from <= |s|
    ensures match Find(s, c, from)
            case Some(at) => s[at] == c && forall k :: from <= k < at ==> s[k] != c
            case None => forall k :: from <= k < |s| ==> s[k] != c
    decreases |s| - from
  {
    if from < |s| && s[from] != c {
      FindSpec(s, c, from + 1);
    }
  }

  lemma {:induction false} FindSkips(s: seq<byte>, c: byte, from: nat, pos: nat)
    requires from <= pos <= |s| && forall k :: from <= k < pos ==> s[k] != c
    ensures Find(s, c, from) == Find(s, c, pos)
    decreases pos - from
  {
    if from < pos {
      FindSkips(s, c, from + 1, pos);
    }
  }

  lemma FindsAt(s: seq<byte>, c: byte, from: nat, pos: nat)
    requires from <= pos < |s| && s[pos] == c && forall k :: from <= k < pos ==> s[k] != c
    ensures Find(s, c, from) == Some(pos)
  {
    FindSkips(s, c, from, pos);
  }

  lemma FindNothing(s: seq<byte>, c: byte, from: nat)
    requires from <= |s| && forall k :: from <= k < |s| ==> s[k] != c
    ensures Find(s, c, from) == None
  {
    FindSkips(s, c, from, |s|);
  }

  // ---------------------------------------------------------------- powers

  function Pow(b: int, e: nat): int {
    if e == 0 then 1 else b * Pow(b, e - 1)
  }

  lemma {:induction false} PowPositive(b: int, e: nat)
    requires b > 0
    ensures Pow(b, e) > 0
  {
    if e > 0 {
      PowPositive(b, e - 1);
    }
  }

  lemma {:induction false} PowAdd(b: int, d: nat, e: nat)
    ensures Pow(b, d + e) == Pow(b, d) * Pow(b, e)
  {
    if d > 0 {
      PowAdd(b, d - 1, e);
      assert Pow(b, d + e) == b * (Pow(b, d - 1) * Pow(b, e)) == (b * Pow(b, d - 1)) * Pow(b, e);
    }
  }

  lemma {:induction false} PowMonotone(b: int, d: nat, e: nat)
    requires b > 0 && d <= e
    ensures Pow(b, d) <= Pow(b, e)
  {
    PowAdd(b, d, e - d);
    PowPositive(b, d);
    PowPositive(b, e - d);
    var x, y := Pow(b, d), Pow(b, e - d);
    assert x * y >= x * 1;
  }

  lemma {:induction false} PowPow(b: int, d: nat, e: nat)
    ensures Pow(Pow(b, d), e) == Pow(b, d * e)
  {
    if e > 0 {
      PowPow(b, d, e - 1);
      PowAdd(b, d, d * (e - 1));
      assert d + d * (e - 1) == d * e;
    }
  }

  // ------------------------------------------------------------------- XOR

  /** Bitwise exclusive or, one binary digit at a time. */
  function Xor(a: nat, b: nat): nat
    decreases a + b
  {
    if a == 0 && b == 0 then 0 else 2 * Xor(a / 2, b / 2) + (a + b) % 2
  }

  lemma XorDigit(a: nat, b: nat)
    ensures Xor(a, b) / 2 == Xor(a / 2, b / 2)
    ensures Xor(a, b) % 2 == (a + b) % 2
  {
  }

  lemma Parity(a: nat, b: nat, x: nat, y: nat)
    requires x % 2 == (a + b) % 2 && y % 2 == (x + b) % 2
    ensures y % 2 == a % 2
  {
    assert (x - (a + b)) % 2 == 0;
    assert (x + b - a) % 2 == 0 by {
      assert x + b - a == (x - (a + b)) + 2 * b;
    }
  }

  lemma {:induction false} XorCancel(a: nat, b: nat)
    ensures Xor(Xor(a, b), b) == a
    decreases a + b
  {
    if a != 0 || b != 0 {
      XorCancel(a / 2, b / 2);
      XorDigit(a, b);
      XorStep(a, b, Xor(a, b));
    }
  }

  lemma XorStep(a: nat, b: nat, x: nat)
    requires x % 2 == (a + b) % 2 && Xor(x / 2, b / 2) == a / 2
    ensures Xor(x, b) == a
  {
    XorDigit(x, b);
    Parity(a, b, x, Xor(x, b));
  }

  lemma {:induction false} XorCommutes(a: nat, b: nat)
    ensures Xor(a, b) == Xor(b, a)
    decreases a + b
  {
    if a != 0 || b != 0 {
      XorCommutes(a / 2, b / 2);
    }
  }

  lemma {:induction false} XorBound(a: nat, b: nat, k: nat)
    requires a < Pow(2, k) && b < Pow(2, k)
    ensures Xor(a, b) < Pow(2, k)
  {
    if a != 0 || b != 0 {
      XorBound(a / 2, b / 2, k - 1);
    }
  }

  /** Bit `i` of the result is set where exactly one of the two bits is. */
  lemma {:induction false} XorBit(a: nat, b: nat, i: nat)
    ensures Pow(2, i) > 0
    ensures (Xor(a, b) / Pow(2, i)) % 2 == 1 <==> (a / Pow(2, i)) % 2 != (b / Pow(2, i)) % 2
  {
    hide Xor;
    PowPositive(2, i);
    XorDigit(a, b);
    if i == 0 {
      OddSum(a, b);
    } else {
      XorBit(a / 2, b / 2, i - 1);
      HalfThenDivide(a, Pow(2, i - 1));
      HalfThenDivide(b, Pow(2, i - 1));
      HalfThenDivide(Xor(a, b), Pow(2, i - 1));
    }
  }

  lemma OddSum(a: nat, b: nat)
    ensures (a + b) % 2 == 1 <==> a % 2 != b % 2
  {
  }

  lemma HalfThenDivide(x: nat, q: int)
    requires q > 0
    ensures (x / 2) / q == x / (2 * q)
  {
    var h := x / 2;
    var d, r := h / q, h % q;
    assert h == q * d + r;
    assert x == (2 * q) * d + (2 * r + x % 2) by {
      assert x == 2 * h + x % 2;
      assert 2 * (q * d) == (2 * q) * d;
    }
    DivUnique(x, 2 * q, d, 2 * r + x % 2);
  }

  function XorByte(a: byte, b: byte): (c: byte)
  {
    assert Pow(2, 8) == 256;
    XorBound(a, b, 8);
    Xor(a, b)
  }

  /** Exclusive or with a fixed byte loses nothing, on either side. */
  lemma XorByteCancel(a: byte, b: byte)
    ensures XorByte(XorByte(a, b), b) == a
    ensures XorByte(a, XorByte(a, b)) == b
  {
    XorCancel(a, b);
    XorCommutes(a, b);
    XorCancel(b, a);
    XorCommutes(a, XorByte(a, b));
  }

  function Zeros(n: nat): (z: seq<byte>)
    ensures |z| == n
    ensures forall i :: 0 <= i < n ==> z[i] == 0
  {
    if n == 0 then [] else Zeros(n - 1) + [0]
  }

  // ------------------------------------------------------ big-endian bytes

  function FromBigEndian(bytes: seq<byte>): nat {
    if bytes == [] then 0
    else 256 * FromBigEndian(bytes[..|bytes| - 1]) + bytes[|bytes| - 1]
  }

  /** The last `len` base-256 digits of `n`, most significant first. */
  function ToBigEndian(n: nat, len: nat): (bytes: seq<byte>)
    ensures |bytes| == len
  {
    if len == 0 then [] else ToBigEndian(n / 256, len - 1) + [n % 256]
  }

  lemma {:induction false} FromBigEndianBound(bytes: seq<byte>)
    ensures FromBigEndian(bytes) < Pow(256, |bytes|)
  {
    if bytes != [] {
      FromBigEndianBound(bytes[..|bytes| - 1]);
    }
  }

  lemma {:induction false} BytesRoundTrip(bytes: seq<byte>)
    ensures ToBigEndian(FromBigEndian(bytes), |bytes|) == bytes
  {
    if bytes != [] {
      var front, last := bytes[..|bytes| - 1], bytes[|bytes| - 1];
      BytesRoundTrip(front);
      LastDigit(FromBigEndian(front), last);
      assert bytes == front + [last];
    }
  }

  lemma LastDigit(n: nat, digit: byte)
    ensures (256 * n + digit) / 256 == n && (256 * n + digit) % 256 == digit
  {
  }

  lemma {:induction false} IntegerRoundTrip(n: nat, len: nat)
    requires n < Pow(256, len)
    ensures FromBigEndian(ToBigEndian(n, len)) == n
  {
    if len > 0 {
      assert n / 256 < Pow(256, len - 1);
      IntegerRoundTrip(n / 256, len - 1);
      var b := ToBigEndian(n, len);
      assert b[..|b| - 1] == ToBigEndian(n / 256, len - 1);
    }
  }

  lemma {:induction false} ToBigEndianInjective(a: nat, b: nat, len: nat)
    requires a < Pow(256, len) && b < Pow(256, len)
    requires ToBigEndian(a, len) == ToBigEndian(b, len)
    ensures a == b
  {
    IntegerRoundTrip(a, len);
    IntegerRoundTrip(b, len);
  }

  /** Digit `i` of the big-endian form is what the shift `n >> 8 * (len - 1 - i)` truncated to a byte gives. */
  lemma {:induction false} ToBigEndianDigit(n: nat, len: nat, i: nat)
    requires i < len
    ensures Pow(256, len - 1 - i) > 0
    ensures ToBigEndian(n, len)[i] == (n / Pow(256, len - 1 - i)) % 256
  {
    PowPositive(256, len - 1 - i);
    if i < len - 1 {
      ToBigEndianDigit(n / 256, len - 1, i);
      DivDiv(n, Pow(256, len - 2 - i));
    }
  }

  lemma DivDiv(n: nat, q: int)
    requires q > 0
    ensures (n / 256) / q == n / (256 * q)
  {
    var a := n / 256;
    var d, r := a / q, a % q;
    assert n == 256 * a + n % 256;
    assert n == (256 * q) * d + (256 * r + n % 256) by {
      assert a == q * d + r;
      assert 256 * (q * d) == (256 * q) * d;
    }
    DivUnique(n, 256 * q, d, 256 * r + n % 256);
  }

  /** Two bytes as a number, the high one first. */
  function Word(high: byte, low: byte): nat {
    (high as nat) * 256 + low
  }

  lemma TwoDigits(n: nat)
    ensures ToBigEndian(n, 2) == [(n / 0x100) % 0x100, n % 0x100]
  {
    assert ToBigEndian(n / 256, 1) == [] + [(n / 256) % 256];
  }

  lemma WordSpelled(high: byte, low: byte)
    ensures FromBigEndian([high, low]) == Word(high, low)
  {
    assert [high, low][..1] == [high] && [high][..0] == [];
    assert FromBigEndian([high]) == high;
  }
}
