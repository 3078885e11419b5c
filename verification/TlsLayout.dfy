/**
 * What the record layer's bytes say to someone who reads them by the
 * standards: nonces, counters, keystream, tag and the key expansion, each
 * read back field by field and not through the functions that build them.
 */
module TlsLayout {
  import opened Bits
  import opened Bytes
  import opened Tls
  import opened TlsTheorems
  import opened Wrappers

  // ------------------------------------------------- nonces and counters

  /** Four bytes of the IV, and eight that mixed with the IV again spell the sequence number. */
  lemma NonceFields(iv: seq<byte>, sequence: nat)
    requires |iv| == 12 && sequence < SEQUENCE_SPACE
    ensures Nonce(iv, sequence)[..4] == iv[..4]
    ensures FromBigEndian(XorSeq(Nonce(iv, sequence)[4..], iv[4..])) == sequence
  {
    hide XorByte, ToBigEndian, FromBigEndian, Pow;
    var nonce, spelled := Nonce(iv, sequence), ToBigEndian(sequence, 8);
    forall i | 0 <= i < 8
      ensures XorSeq(nonce[4..], iv[4..])[i] == spelled[i]
    {
      assert nonce[4..][i] == XorByte(iv[4..][i], spelled[i]);
      XorByteTwice(iv[4..][i], spelled[i]);
    }
    assert XorSeq(nonce[4..], iv[4..]) == spelled;
    SpaceIsPower();
    IntegerRoundTrip(sequence, 8);
  }

  lemma XorByteTwice(a: byte, b: byte)
    ensures XorByte(XorByte(a, b), a) == b
  {
    XorByteCancel(a, b);
    XorCommutes(XorByte(a, b), a);
  }

  lemma SpaceIsPower()
    ensures Pow(256, 8) == SEQUENCE_SPACE
  {
  }

  /**
   * Input `j` of record `k` of a run, read as bytes: the IV's first four,
   * the record's sequence number mixed into the next eight, and the counter
   * 2, 3, ... for the keystream, 1 for the tag.
   */
  lemma RunInputFields(iv: seq<byte>, start: nat, lens: seq<nat>, k: nat, j: nat)
    requires |iv| == 12 && LengthsFit(lens) && k < |lens| && j <= BlockCount(lens[k])
    ensures var at := |RunInputs(iv, start, lens[..k])| + j;
            && at < |RunInputs(iv, start, lens)|
            && var input := RunInputs(iv, start, lens)[at];
            && input[..4] == iv[..4]
            && FromBigEndian(XorSeq(input[4..12], iv[4..])) == (start + k) % SEQUENCE_SPACE
            && FromBigEndian(input[12..]) == if j < BlockCount(lens[k]) then j + 2 else 1
  {
    hide Nonce, RecordInputs, RunInputs, FromBigEndian, XorSeq;
    var nonce, blocks := Nonce(iv, RecordNumber(start, k)), BlockCount(lens[k]);
    NextRecord(iv, start, lens, k);
    RunPrefix(iv, start, lens, k + 1);
    InputsSpelled(nonce, blocks);
    NonceFields(iv, RecordNumber(start, k));
    var input := RecordInputs(nonce, blocks)[j];
    assert input[..12] == nonce && input[..4] == nonce[..4] && input[4..12] == nonce[4..];
  }

  lemma {:induction false} RunPrefix(iv: seq<byte>, start: nat, lens: seq<nat>, k: nat)
    requires |iv| == 12 && k <= |lens|
    ensures RunInputs(iv, start, lens[..k]) <= RunInputs(iv, start, lens)
    decreases |lens|
  {
    hide Nonce, RecordInputs;
    if k == |lens| {
      assert lens[..k] == lens;
    } else {
      var front := lens[..|lens| - 1];
      RunPrefix(iv, start, front, k);
      assert front[..k] == lens[..k];
    }
  }

  // ---------------------------------------------------- keystream and tag

  /** The circuit sees the key on its first wires, the input on its second. */
  lemma AesWires(aes: Circuit, key: Block, input: Block)
    ensures BytesToBits(Aes(aes, key, input)) == aes(BytesToBits(key), BytesToBits(input))
  {
    BitsBytesBits(aes(BytesToBits(key), BytesToBits(input)));
  }

  /** `b` is the block of this nonce and counter. */
  ghost predicate Reads(b: Block, nonce: seq<byte>, counter: nat) {
    b[..12] == nonce && FromBigEndian(b[12..]) == counter
  }

  lemma ReadsOnly(b: Block, nonce: seq<byte>, counter: nat)
    requires |nonce| == 12 && counter < 0x1_0000_0000
    ensures Reads(b, nonce, counter) <==> b == CounterBlock(nonce, counter)
  {
    hide ToBigEndian, FromBigEndian, CounterBlock;
    CounterBlockFields(nonce, counter);
    if Reads(b, nonce, counter) {
      var c := CounterBlock(nonce, counter);
      BytesRoundTrip(b[12..]);
      BytesRoundTrip(c[12..]);
      assert b == b[..12] + b[12..] && c == c[..12] + c[12..];
    }
  }

  /** Byte `i` of the ciphertext is the plaintext's mixed with byte `i % 16` of the cipher's output on counter i / 16 + 2. */
  lemma CiphertextByte(aes: Circuit, key: Block, nonce: seq<byte>, text: seq<byte>, i: nat, input: Block)
    requires |nonce| == 12 && i < |text| && |text| < 0x8000_0000 && Reads(input, nonce, i / 16 + 2)
    ensures Record(aes, key, nonce, text)[5 + i] == XorByte(text[i], Aes(aes, key, input)[i % 16])
  {
    hide XorByte, Aes, CounterBlock, FromBigEndian, Tag, Header;
    ReadsOnly(input, nonce, i / 16 + 2);
  }

  /** The exclusive or of every sixteenth byte, from byte `b` on. */
  function Column(c: seq<byte>, b: nat): byte
    requires b < 16
  {
    if c == [] then 0
    else if (|c| - 1) % 16 == b then XorByte(Column(c[..|c| - 1], b), c[|c| - 1])
    else Column(c[..|c| - 1], b)
  }

  /** Byte `b` of the tag is the cipher's output on counter 1 mixed with that column of the ciphertext. */
  lemma TagByte(aes: Circuit, key: Block, nonce: seq<byte>, text: seq<byte>, b: nat, input: Block)
    requires |nonce| == 12 && b < 16 && Reads(input, nonce, 1)
    ensures var r := Record(aes, key, nonce, text);
            r[5 + |text| + b] == XorByte(Aes(aes, key, input)[b], Column(r[5..5 + |text|], b))
  {
    hide XorByte, Aes, CounterBlock, FromBigEndian, Fold, Column, Header, CounterMode;
    var c := CounterMode(aes, key, nonce, text);
    ReadsOnly(input, nonce, 1);
    FoldIsColumn(c, BlockCount(|c|), b);
    assert c[..|c|] == c;
    assert Record(aes, key, nonce, text)[5..5 + |text|] == c;
  }

  /** The accumulator after `n` blocks holds the columns of what they cover. */
  lemma {:induction false} FoldIsColumn(c: seq<byte>, n: nat, b: nat)
    requires n <= BlockCount(|c|) && b < 16
    ensures Fold(c, n)[b] == Column(c[..if 16 * n < |c| then 16 * n else |c|], b)
  {
    hide XorByte, Column, Fold;
    if n == 0 {
      FoldNothing(c);
      assert c[..0] == [];
      NoColumn(b);
    } else {
      FoldIsColumn(c, n - 1, b);
      FoldByte(c, n - 1, b);
      ColumnStep(c, 16 * (n - 1), if 16 < |c| - 16 * (n - 1) then 16 else |c| - 16 * (n - 1), b);
    }
  }

  lemma FoldByte(c: seq<byte>, k: nat, b: nat)
    requires 16 * k < |c| && b < 16
    ensures Fold(c, k + 1)[b] == XorByte(Fold(c, k)[b], if 16 * k + b < |c| then c[16 * k + b] else 0)
  {
    hide XorByte, Fold, PaddedBlock;
    FoldStep(c, k);
    PaddedChunk(c, k, if 16 < |c| - 16 * k then 16 else |c| - 16 * k);
  }

  lemma NoColumn(b: nat)
    requires b < 16
    ensures Column([], b) == 0
  {
  }

  lemma {:induction false} ColumnStep(c: seq<byte>, at: nat, m: nat, b: nat)
    requires at % 16 == 0 && m <= 16 && at + m <= |c| && b < 16
    ensures Column(c[..at + m], b) == XorByte(Column(c[..at], b), if b < m then c[at + b] else 0)
    decreases m
  {
    hide XorByte;
    if m == 0 {
      XorZero(Column(c[..at], b));
    } else {
      ColumnStep(c, at, m - 1, b);
      assert c[..at + m][..at + m - 1] == c[..at + m - 1];
      XorZero(Column(c[..at], b));
      SameColumn(at, m - 1, b);
    }
  }

  lemma SameColumn(at: nat, i: nat, b: nat)
    requires at % 16 == 0 && i < 16 && b < 16
    ensures (at + i) % 16 == b <==> i == b
  {
  }

  lemma XorZero(a: byte)
    ensures XorByte(a, 0) == a
  {
    XorNothing(a);
  }

  lemma {:induction false} XorNothing(a: nat)
    ensures Xor(a, 0) == a
  {
    if a != 0 {
      XorNothing(a / 2);
    }
  }

  // -------------------------------------------------------- key expansion

  /** T(i) hashes T(i - 1), which is empty before the first, the info and the round number (RFC 5869, section 2.3). */
  lemma RoundHashes(hmac: Hmac, secret: seq<byte>, info: seq<byte>, i: nat)
    requires 0 < i < 256
    ensures T(hmac, secret, info, i) == hmac(secret, Message(hmac, secret, info, i))
    ensures Message(hmac, secret, info, i) == (if i == 1 then [] else T(hmac, secret, info, i - 1)) + info + [i as byte]
  {
  }

  /** The messages the expansion hashes are those, one a round, and no two are the same. */
  lemma HashedOnce(hmac: Hmac, secret: seq<byte>, purpose: seq<byte>, outLen: nat)
    requires outLen <= 8160 && |purpose| <= 54
    ensures var hashed := Messages(hmac, secret, HkdfLabel(outLen, purpose), (outLen + 31) / 32);
            && (forall i :: 0 <= i < |hashed| ==>
                  T(hmac, secret, HkdfLabel(outLen, purpose), i + 1) == hmac(secret, hashed[i]))
            && (forall i, j :: 0 <= i < j < |hashed| ==> hashed[i] != hashed[j])
  {
    hide T, HkdfLabel, Message;
    var info := HkdfLabel(outLen, purpose);
    var hashed := Messages(hmac, secret, info, (outLen + 31) / 32);
    forall i | 0 <= i < |hashed|
      ensures T(hmac, secret, info, i + 1) == hmac(secret, hashed[i])
    {
      RoundHashes(hmac, secret, info, i + 1);
    }
    forall i, j | 0 <= i < j < |hashed|
      ensures hashed[i] != hashed[j]
    {
      MessagesDistinct(hmac, secret, outLen, purpose, outLen, purpose, i + 1, j + 1);
    }
  }

  /** Up to a digest of output is cut from one hash of the info and the byte one. */
  lemma FirstBlock(hmac: Hmac, secret: seq<byte>, purpose: seq<byte>, outLen: nat)
    requires 0 < outLen <= 32 && |purpose| < 250
    ensures ExpandLabel(hmac, secret, purpose, outLen) == hmac(secret, HkdfLabel(outLen, purpose) + [1])[..outLen]
  {
    var info := HkdfLabel(outLen, purpose);
    hide HkdfLabel;
    assert (outLen + 31) / 32 == 1;
    assert T(hmac, secret, info, 0) == [] && [] + info + [1] == info + [1];
    assert T(hmac, secret, info, 1) == hmac(secret, info + [1]);
    assert Stream(hmac, secret, info, 1) == [] + T(hmac, secret, info, 1) == T(hmac, secret, info, 1);
  }

  /** An HkdfLabel read by RFC 8446, section 7.1: output length, label, context. */
  function ReadHkdfLabel(info: seq<byte>): Option<(nat, seq<byte>, seq<byte>)> {
    if |info| < 3 || |info| < 4 + info[2] as nat then None
    else
      var end := 3 + info[2] as nat;
      if |info| != end + 1 + info[end] as nat then None
      else Some((Word(info[0], info[1]), info[3..end], info[end + 1..]))
  }

  /** The info field reads as the output length, the label with its prefix, and no context. */
  lemma HkdfLabelReads(outLen: nat, purpose: seq<byte>)
    requires outLen < 65536 && |purpose| < 250
    ensures ReadHkdfLabel(HkdfLabel(outLen, purpose)) == Some((outLen, Ascii("tls13 ") + purpose, []))
  {
    var info := HkdfLabel(outLen, purpose);
    TwoDigits(outLen);
    assert info[0] == (outLen / 0x100) % 0x100 && info[1] == outLen % 0x100;
    assert info[2] == 6 + |purpose| && info[3..9 + |purpose|] == PREFIX + purpose;
    assert info[9 + |purpose|] == 0 && info[10 + |purpose|..] == [];
    assert PREFIX == Ascii("tls13 ");
  }

  /** The three keys of a session from one hash each, and the secret they come from. */
  lemma KeySchedule(hmac: Hmac, shard: seq<byte>)
    ensures var secret := HandshakeSecret(shard);
            && (forall i :: 0 <= i < 48 ==> secret[i] == if i < |shard| then shard[i] else 0)
            && ExpandLabel(hmac, secret, KEY_LABEL, 16) == hmac(secret, HkdfLabel(16, Ascii("key")) + [1])[..16]
            && ExpandLabel(hmac, secret, IV_LABEL, 12) == hmac(secret, HkdfLabel(12, Ascii("iv")) + [1])[..12]
            && ExpandLabel(hmac, secret, SERVER_KEY_LABEL, 16) == hmac(secret, HkdfLabel(16, Ascii("s ap key")) + [1])[..16]
  {
    hide ExpandLabel, HkdfLabel;
    var secret := HandshakeSecret(shard);
    assert KEY_LABEL == Ascii("key") && IV_LABEL == Ascii("iv") && SERVER_KEY_LABEL == Ascii("s ap key");
    FirstBlock(hmac, secret, KEY_LABEL, 16);
    FirstBlock(hmac, secret, IV_LABEL, 12);
    FirstBlock(hmac, secret, SERVER_KEY_LABEL, 16);
  }
}
