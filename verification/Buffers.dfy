/** Writing into a fixed buffer: what a copy, or a byte-by-byte loop, leaves there. */
module Buffers {
  import opened Bytes

  /** `s` with the bytes `t` written at an offset. */
  function Spliced(s: seq<byte>, offset: nat, t: seq<byte>): (r: seq<byte>)
    requires offset + |t| <= |s|
    ensures |r| == |s|
  {
    s[..offset] + t + s[offset + |t|..]
  }

  /** Writing the next piece of `whole` after a prefix of it gives the longer prefix. */
  lemma SplicePrefix(s: seq<byte>, whole: seq<byte>, a: nat, b: nat)
    requires a <= b <= |whole| <= |s|
    ensures Spliced(Spliced(s, 0, whole[..a]), a, whole[a..b]) == Spliced(s, 0, whole[..b])
  {
    assert whole[..a] + whole[a..b] == whole[..b];
  }

  lemma SplicedAt(s: seq<byte>, offset: nat, t: seq<byte>)
    requires offset + |t| <= |s|
    ensures Spliced(s, offset, t)[offset..offset + |t|] == t
  {
  }

  lemma SpliceNext(s: seq<byte>, offset: nat, t: seq<byte>, k: nat)
    requires offset + |t| <= |s| && k < |t|
    ensures Spliced(s, offset, t[..k])[offset + k := t[k]] == Spliced(s, offset, t[..k + 1])
  {
  }

  /** memcpy into a buffer at an offset. */
  method CopyInto(out: array<byte>, offset: nat, bytes: seq<byte>)
    requires offset + |bytes| <= out.Length
    modifies out
    ensures out[..] == Spliced(old(out[..]), offset, bytes)
  {
    assert out[..] == Spliced(old(out[..]), offset, bytes[..0]);
    for k := 0 to |bytes|
      invariant out[..] == Spliced(old(out[..]), offset, bytes[..k])
    {
      SpliceNext(old(out[..]), offset, bytes, k);
      out[offset + k] := bytes[k];
    }
    assert bytes[..|bytes|] == bytes;
  }

  /** What is written right after a prefix extends it. */
  lemma SpliceFront(s: seq<byte>, front: seq<byte>, t: seq<byte>)
    requires |front| + |t| <= |s| && front == s[..|front|]
    ensures Spliced(s, |front|, t)[..|front| + |t|] == front + t
  {
  }

  lemma SpliceNothing(s: seq<byte>, whole: seq<byte>)
    ensures Spliced(s, 0, whole[..0]) == s
  {
  }
}
