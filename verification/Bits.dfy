/** Bit lists of numbers and byte strings, least significant bit first. */
module Bits {
  import opened Bytes
  import opened ModArith

  function BitValue(b: bool): nat {
    if b then 1 else 0
  }

  function ToBits(x: nat, k: nat): (bits: seq<bool>)
    ensures |bits| == k
  {
    if k == 0 then [] else [x % 2 == 1] + ToBits(x / 2, k - 1)
  }

  function FromBits(bits: seq<bool>): nat {
    if bits == [] then 0 else BitValue(bits[0]) + 2 * FromBits(bits[1..])
  }

  /** Bit `i` is what shifting right by `i` and masking with one gives. */
  lemma {:induction false} ToBitsAt(x: nat, k: nat, i: nat)
    requires i < k
    ensures Pow(2, i) > 0
    ensures ToBits(x, k)[i] == ((x / Pow(2, i)) % 2 == 1)
  {
    PowPositive(2, i);
    if i > 0 {
      ToBitsAt(x / 2, k - 1, i - 1);
      HalfThenDivide(x, Pow(2, i - 1));
    }
  }

  lemma {:induction false} FromToBits(x: nat, k: nat)
    requires x < Pow(2, k)
    ensures FromBits(ToBits(x, k)) == x
  {
    if k > 0 {
      FromToBits(x / 2, k - 1);
      assert ToBits(x, k)[1..] == ToBits(x / 2, k - 1);
    }
  }

  lemma {:induction false} ToFromBits(bits: seq<bool>)
    ensures FromBits(bits) < Pow(2, |bits|)
    ensures ToBits(FromBits(bits), |bits|) == bits
  {
    if bits != [] {
      ToFromBits(bits[1..]);
      assert bits == [bits[0]] + bits[1..];
    }
  }

  /** Setting the next bit adds its weight: that bit was still clear. */
  lemma {:induction false} FromBitsAppend(bits: seq<bool>, b: bool)
    ensures FromBits(bits + [b]) == FromBits(bits) + BitValue(b) * Pow(2, |bits|)
  {
    if bits != [] {
      FromBitsAppend(bits[1..], b);
      assert (bits + [b])[1..] == bits[1..] + [b];
      assert 2 * (BitValue(b) * Pow(2, |bits| - 1)) == BitValue(b) * Pow(2, |bits|);
    } else {
      assert (bits + [b])[1..] == [];
    }
  }

  function BytesToBits(bytes: seq<byte>): (bits: seq<bool>)
    ensures |bits| == 8 * |bytes|
  {
    if bytes == [] then [] else BytesToBits(bytes[..|bytes| - 1]) + ToBits(bytes[|bytes| - 1], 8)
  }

  function ByteFromBits(bits: seq<bool>): byte
    requires |bits| == 8
  {
    ToFromBits(bits);
    assert Pow(2, 8) == 256;
    FromBits(bits)
  }

  function BitsToBytes(bits: seq<bool>): (bytes: seq<byte>)
    requires |bits| % 8 == 0
    ensures 8 * |bytes| == |bits|
  {
    if bits == [] then []
    else BitsToBytes(bits[..|bits| - 8]) + [ByteFromBits(bits[|bits| - 8..])]
  }

  lemma ByteRoundTrip(x: byte)
    ensures ByteFromBits(ToBits(x, 8)) == x
  {
    assert Pow(2, 8) == 256;
    FromToBits(x, 8);
  }

  lemma {:induction false} BytesBitsBytes(bytes: seq<byte>)
    ensures BitsToBytes(BytesToBits(bytes)) == bytes
  {
    hide ToBits, ByteFromBits;
    if bytes != [] {
      var front, last := bytes[..|bytes| - 1], bytes[|bytes| - 1];
      var bits := BytesToBits(bytes);
      BytesBitsBytes(front);
      assert bits[..|bits| - 8] == BytesToBits(front);
      assert bits[|bits| - 8..] == ToBits(last, 8);
      ByteRoundTrip(last);
    }
  }

  lemma {:induction false} BitsBytesBits(bits: seq<bool>)
    requires |bits| % 8 == 0
    ensures BytesToBits(BitsToBytes(bits)) == bits
  {
    hide ToBits, FromBits;
    if bits != [] {
      var front := bits[..|bits| - 8];
      BitsBytesBits(front);
      ToFromBits(bits[|bits| - 8..]);
      assert BitsToBytes(bits)[..|bits| / 8 - 1] == BitsToBytes(front);
    }
  }
}
