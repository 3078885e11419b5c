/**
 * The record layer of the MPC node: keys expanded from the shard, the nonce
 * of a record, counter-mode encryption into a caller's buffer and the tag.
 * The AES circuit and HMAC are parameters. Models src/server/tls_smpc.h as
 * party ALICE runs it.
 */
module Tls {
  import opened Bits
  import opened Buffers
  import opened Bytes

  type Block = s: seq<byte> | |s| == 16 witness Zeros(16)

  type Digest = s: seq<byte> | |s| == 32 witness Zeros(32)

  type Wires = s: seq<bool> | |s| == 128 witness BytesToBits(Zeros(16))

  /** The AES circuit on key and input wires. */
  type Circuit = (Wires, Wires) -> Wires

  /** HMAC-SHA-256 on key and message. */
  type Hmac = (seq<byte>, seq<byte>) -> Digest

  const SEQUENCE_SPACE: nat := 0x1_0000_0000_0000_0000

  // ------------------------------------------------- bit and byte helpers

  method BytesToBools(bytes: seq<byte>, bools: array<bool>)
    requires bools.Length == 8 * |bytes|
    modifies bools
    ensures bools[..] == BytesToBits(bytes)
  {
    ghost var all := BytesToBits(bytes);
    for i := 0 to |bytes|
      invariant bools[..8 * i] == all[..8 * i]
    {
      for b := 0 to 8
        invariant bools[..8 * i + b] == all[..8 * i + b]
      {
        BitOfBytes(bytes, i, b);
        bools[8 * i + b] := (bytes[i] / Pow(2, b)) % 2 == 1;
        assert bools[..8 * i + b + 1] == bools[..8 * i + b] + [all[8 * i + b]];
      }
    }
    assert all[..8 * |bytes|] == all && bools[..8 * |bytes|] == bools[..];
  }

  lemma {:induction false} BitOfBytes(bytes: seq<byte>, i: nat, b: nat)
    requires i < |bytes| && b < 8
    ensures Pow(2, b) > 0
    ensures BytesToBits(bytes)[8 * i + b] == ((bytes[i] / Pow(2, b)) % 2 == 1)
  {
    var front := bytes[..|bytes| - 1];
    if i < |front| {
      BitOfBytes(front, i, b);
    } else {
      ToBitsAt(bytes[i], 8, b);
    }
  }

  method BoolsToBytes(bools: seq<bool>, bytes: array<byte>)
    requires |bools| == 8 * bytes.Length
    modifies bytes
    ensures bytes[..] == BitsToBytes(bools)
  {
    hide BitsToBytes, FromBits, Pow;
    assert bools[..0] == [];
    NoBits();
    for i := 0 to bytes.Length
      invariant bytes[..i] == BitsToBytes(bools[..8 * i])
    {
      var val: nat := 0;
      ghost var group, done := bools[8 * i..8 * i + 8], bytes[..i];
      for b := 0 to 8
        invariant val == FromBits(group[..b]) && bytes[..i] == done
      {
        NextBit(group, b);
        if bools[8 * i + b] {
          val := val + Pow(2, b);
        }
      }
      NextByte(bools, i);
      bytes[i] := val;
      assert bytes[..i + 1] == done + [val];
    }
    assert bools[..8 * bytes.Length] == bools && bytes[..bytes.Length] == bytes[..];
  }

  lemma NoBits()
    ensures FromBits([]) == 0 && BitsToBytes([]) == []
  {
  }

  lemma NextBit(group: seq<bool>, b: nat)
    requires b < |group|
    ensures FromBits(group[..b + 1]) == FromBits(group[..b]) + if group[b] then Pow(2, b) else 0
  {
    FromBitsAppend(group[..b], group[b]);
    assert group[..b + 1] == group[..b] + [group[b]];
  }

  lemma NextByte(bools: seq<bool>, i: nat)
    requires 8 * i + 8 <= |bools|
    ensures FromBits(bools[8 * i..8 * i + 8][..8]) < 256
    ensures BitsToBytes(bools[..8 * (i + 1)])
         == BitsToBytes(bools[..8 * i]) + [FromBits(bools[8 * i..8 * i + 8][..8])]
  {
    var front, group := bools[..8 * (i + 1)], bools[8 * i..8 * i + 8];
    assert group[..8] == group == front[|front| - 8..] && front[..|front| - 8] == bools[..8 * i];
    assert FromBits(group) == ByteFromBits(group);
  }

  // --------------------------------------------------- HKDF-Expand-Label

  const PREFIX: seq<byte> := [0x74, 0x6C, 0x73, 0x31, 0x33, 0x20]  // "tls13 "

  /** HkdfLabel of RFC 8446, section 7.1, with an empty context. */
  function HkdfLabel(outLen: nat, purpose: seq<byte>): (info: seq<byte>)
    requires |purpose| < 250
    ensures |info| == 10 + |purpose|
  {
    ToBigEndian(outLen, 2) + [6 + |purpose|] + PREFIX + purpose + [0]
  }

  /** T(i) of RFC 5869, section 2.3, its counter truncated to a byte. */
  function T(hmac: Hmac, secret: seq<byte>, info: seq<byte>, i: nat): (t: seq<byte>)
    ensures |t| == if i == 0 then 0 else 32
  {
    if i == 0 then [] else hmac(secret, T(hmac, secret, info, i - 1) + info + [i % 256])
  }

  /** What is hashed in round `i`. */
  function Message(hmac: Hmac, secret: seq<byte>, info: seq<byte>, i: nat): seq<byte>
    requires i > 0
  {
    T(hmac, secret, info, i - 1) + info + [i % 256]
  }

  /** What is hashed in the first `n` rounds. */
  function Messages(hmac: Hmac, secret: seq<byte>, info: seq<byte>, n: nat): (m: seq<seq<byte>>)
    ensures |m| == n
  {
    seq(n, i requires 0 <= i < n => Message(hmac, secret, info, i + 1))
  }

  /** T(1) followed by T(2) up to T(n). */
  function Stream(hmac: Hmac, secret: seq<byte>, info: seq<byte>, n: nat): (s: seq<byte>)
    ensures |s| == 32 * n
  {
    if n == 0 then [] else Stream(hmac, secret, info, n - 1) + T(hmac, secret, info, n)
  }

  function ExpandLabel(hmac: Hmac, secret: seq<byte>, purpose: seq<byte>, outLen: nat): (okm: seq<byte>)
    requires |purpose| < 250
    ensures |okm| == outLen
  {
    Stream(hmac, secret, HkdfLabel(outLen, purpose), (outLen + 31) / 32)[..outLen]
  }

  method BuildInfo(outLen: nat, purpose: seq<byte>) returns (info: seq<byte>)
    requires |purpose| <= 54
    ensures info == HkdfLabel(outLen, purpose)
  {
    TwoDigits(outLen);
    info := [(outLen / 0x100) % 0x100, outLen % 0x100, 6 + |purpose|] + PREFIX + purpose + [0];
  }

  /** Fails, as the code throws, when the label does not fit the 64-byte buffer. */
  method HkdfExpandLabel(hmac: Hmac, secret: seq<byte>, purpose: seq<byte>, out: array<byte>, outLen: nat)
    returns (ok: bool, ghost hashed: seq<seq<byte>>)
    requires outLen <= out.Length
    modifies out
    ensures ok <==> |purpose| <= 54
    ensures ok ==> out[..] == Spliced(old(out[..]), 0, ExpandLabel(hmac, secret, purpose, outLen))
    ensures ok ==> hashed == Messages(hmac, secret, HkdfLabel(outLen, purpose), (outLen + 31) / 32)
    ensures !ok ==> out[..] == old(out[..]) && hashed == []
  {
    hide Spliced, Stream, HkdfLabel, ExpandLabel;
    hashed := [];
    var infoLen := 2 + 1 + 6 + |purpose| + 1;
    if infoLen > 64 {
      return false, hashed;
    }
    var info := BuildInfo(outLen, purpose);
    var n := (outLen + 31) / 32;
    var written := 0;
    var tPrev: seq<byte> := [];
    ghost var before, whole := out[..], ExpandLabel(hmac, secret, purpose, outLen);
    SpliceNothing(before, whole);
    for i := 1 to n + 1
      invariant written == if 32 * (i - 1) <= outLen then 32 * (i - 1) else outLen
      invariant tPrev == T(hmac, secret, info, i - 1)
      invariant out[..] == Spliced(before, 0, whole[..written])
      invariant hashed == Messages(hmac, secret, info, i - 1)
    {
      var message := (if i > 1 then tPrev else []) + info + [i % 256];
      hashed := hashed + [message];
      tPrev := hmac(secret, message);
      var copyLen := if 32 < outLen - written then 32 else outLen - written;
      ExpandPiece(hmac, secret, purpose, outLen, i, copyLen);
      CopyInto(out, written, tPrev[..copyLen]);
      SplicePrefix(before, whole, written, written + copyLen);
      written := written + copyLen;
    }
    assert whole[..outLen] == whole;
    ok := true;
  }

  /** Expansion into a fresh buffer of its own length. */
  method Derive(hmac: Hmac, secret: seq<byte>, purpose: seq<byte>, outLen: nat) returns (okm: seq<byte>)
    requires |purpose| <= 54
    ensures okm == ExpandLabel(hmac, secret, purpose, outLen)
  {
    var out := new byte[outLen](_ => 0);
    var ok, hashed := HkdfExpandLabel(hmac, secret, purpose, out, outLen);
    okm := out[..];
  }

  /** Piece `i` of the output, possibly cut short, is T(i). */
  lemma ExpandPiece(hmac: Hmac, secret: seq<byte>, purpose: seq<byte>, outLen: nat, i: nat, copyLen: nat)
    requires |purpose| <= 54 && 0 < i && copyLen <= 32 && 32 * (i - 1) + copyLen <= outLen
    requires i <= (outLen + 31) / 32
    ensures ExpandLabel(hmac, secret, purpose, outLen)[32 * (i - 1)..32 * (i - 1) + copyLen]
         == T(hmac, secret, HkdfLabel(outLen, purpose), i)[..copyLen]
  {
    StreamPiece(hmac, secret, HkdfLabel(outLen, purpose), (outLen + 31) / 32, i, copyLen);
  }

  lemma {:induction false} StreamPiece(hmac: Hmac, secret: seq<byte>, info: seq<byte>, n: nat, i: nat, copyLen: nat)
    requires 0 < i <= n && copyLen <= 32
    ensures Stream(hmac, secret, info, n)[32 * (i - 1)..32 * (i - 1) + copyLen] == T(hmac, secret, info, i)[..copyLen]
  {
    if i < n {
      StreamPiece(hmac, secret, info, n - 1, i, copyLen);
    }
  }

  // ---------------------------------------------------------- one record

  /** The IV with the left-padded big-endian sequence number mixed in (RFC 8446, section 5.3). */
  function Nonce(iv: seq<byte>, sequence: nat): (nonce: seq<byte>)
    requires |iv| == 12
    ensures |nonce| == 12
  {
    iv[..4] + XorSeq(iv[4..], ToBigEndian(sequence, 8))
  }

  function XorSeq(a: seq<byte>, b: seq<byte>): (c: seq<byte>)
    requires |a| == |b|
    ensures |c| == |a|
    ensures forall i :: 0 <= i < |a| ==> c[i] == XorByte(a[i], b[i])
  {
    seq(|a|, i requires 0 <= i < |a| => XorByte(a[i], b[i]))
  }

  function CounterBlock(nonce: seq<byte>, counter: nat): Block
    requires |nonce| == 12
  {
    nonce + ToBigEndian(counter, 4)
  }

  function Aes(aes: Circuit, key: Block, input: Block): Block {
    BitsToBytes(aes(BytesToBits(key), BytesToBits(input)))
  }

  /** Keystream block `k` of a record; the counter starts at 2. */
  function KeystreamBlock(aes: Circuit, key: Block, nonce: seq<byte>, k: nat): Block
    requires |nonce| == 12
  {
    Aes(aes, key, CounterBlock(nonce, k + 2))
  }

  /** Counter mode: byte `i` is mixed with byte `i` of the keystream. */
  function CounterMode(aes: Circuit, key: Block, nonce: seq<byte>, text: seq<byte>): (c: seq<byte>)
    requires |nonce| == 12
    ensures |c| == |text|
  {
    seq(|text|, i requires 0 <= i < |text| => XorByte(text[i], KeystreamBlock(aes, key, nonce, i / 16)[i % 16]))
  }

  function BlockCount(len: nat): nat {
    (len + 15) / 16
  }

  /** Ciphertext block `k`, the last one padded with zeros. */
  function PaddedBlock(c: seq<byte>, k: nat): Block
    requires 16 * k < |c|
  {
    var part := if |c| < 16 * k + 16 then c[16 * k..] else c[16 * k..16 * k + 16];
    part + Zeros(16 - |part|)
  }

  const ZERO_BLOCK: Block := Zeros(16)

  /** The exclusive or of the first `n` padded ciphertext blocks. */
  function Fold(c: seq<byte>, n: nat): Block
    requires n <= BlockCount(|c|)
  {
    if n == 0 then ZERO_BLOCK else XorSeq(Fold(c, n - 1), PaddedBlock(c, n - 1))
  }

  function Tag(aes: Circuit, key: Block, nonce: seq<byte>, c: seq<byte>): Block
    requires |nonce| == 12
  {
    XorSeq(Aes(aes, key, CounterBlock(nonce, 1)), Fold(c, BlockCount(|c|)))
  }

  function Header(len: nat): (h: seq<byte>)
    ensures |h| == 5
  {
    [0x17, 0x03, 0x03] + ToBigEndian(len + 16, 2)
  }

  function Record(aes: Circuit, key: Block, nonce: seq<byte>, text: seq<byte>): (r: seq<byte>)
    requires |nonce| == 12
    ensures |r| == |text| + 21
  {
    var c := CounterMode(aes, key, nonce, text);
    Header(|text|) + c + Tag(aes, key, nonce, c)
  }

  /** The cipher inputs of one record: counters 2, 3, ... and then J0. */
  function RecordInputs(nonce: seq<byte>, blocks: nat): (s: seq<Block>)
    requires |nonce| == 12
    ensures |s| == blocks + 1
  {
    seq(blocks, k requires 0 <= k < blocks => CounterBlock(nonce, k + 2)) + [CounterBlock(nonce, 1)]
  }

  // ------------------------------------------------------------- session

  class MpcTlsSession {
    const aes: Circuit
    const hmac: Hmac
    var masterSecret: seq<byte>
    var clientWriteKey: Block
    var serverWriteKey: Block
    var clientWriteIv: seq<byte>
    var sequenceNumber: nat
    ghost var inputs: seq<Block>  // every cipher input so far

    ghost predicate Valid()
      reads this
    {
      |masterSecret| == 48 && |clientWriteIv| == 12 && sequenceNumber < SEQUENCE_SPACE
    }

    constructor (aes: Circuit, hmac: Hmac)
      ensures Valid() && sequenceNumber == 0 && inputs == []
      ensures this.aes == aes && this.hmac == hmac
    {
      this.aes := aes;
      this.hmac := hmac;
      masterSecret := Zeros(48);
      clientWriteKey := ZERO_BLOCK;
      serverWriteKey := ZERO_BLOCK;
      clientWriteIv := Zeros(12);
      sequenceNumber := 0;
      inputs := [];
    }

    /** Keys from the first 48 bytes of the shard; the sequence number runs on. */
    method InitFromShard(shard: seq<byte>)
      requires Valid()
      modifies this
      ensures Valid()
      ensures masterSecret == HandshakeSecret(shard)
      ensures clientWriteKey == ExpandLabel(hmac, HandshakeSecret(shard), KEY_LABEL, 16)
      ensures clientWriteIv == ExpandLabel(hmac, HandshakeSecret(shard), IV_LABEL, 12)
      ensures serverWriteKey == ExpandLabel(hmac, HandshakeSecret(shard), SERVER_KEY_LABEL, 16)
      ensures sequenceNumber == old(sequenceNumber) && inputs == old(inputs)
    {
      hide ExpandLabel, HandshakeSecret, Spliced, Zeros;
      var handshake := new byte[48](_ => 0);
      var copy := if |shard| < 48 then |shard| else 48;
      assert handshake[..] == Zeros(48);
      CopyInto(handshake, 0, shard[..copy]);
      PaddedShard(shard);
      masterSecret := handshake[..];
      clientWriteKey := Derive(hmac, masterSecret, KEY_LABEL, 16);
      clientWriteIv := Derive(hmac, masterSecret, IV_LABEL, 12);
      serverWriteKey := Derive(hmac, masterSecret, SERVER_KEY_LABEL, 16);
    }

    method Encrypt(plaintext: seq<byte>, ciphertext: array<byte>)
      requires Valid() && |plaintext| + 21 <= ciphertext.Length
      modifies this`sequenceNumber, this`inputs, ciphertext
      ensures Valid()
      ensures ciphertext[..] == Spliced(old(ciphertext[..]), 0,
                                        Record(aes, clientWriteKey, Nonce(clientWriteIv, old(sequenceNumber)), plaintext))
      ensures sequenceNumber == (old(sequenceNumber) + 1) % SEQUENCE_SPACE
      ensures inputs == old(inputs)
                      + RecordInputs(Nonce(clientWriteIv, old(sequenceNumber)), BlockCount(|plaintext|))
      ensures BlockCount(|plaintext|) < 0xFFFF_FFFE ==> forall k :: |old(inputs)| <= k < |inputs| ==>
                && inputs[k][..12] == Nonce(clientWriteIv, old(sequenceNumber))
                && FromBigEndian(inputs[k][12..]) == if k < |inputs| - 1 then k - |old(inputs)| + 2 else 1
    {
      hide XorByte, XorSeq, Spliced, Record, CounterMode, Nonce, Aes, RecordInputs, PaddedBlock, Fold, KeystreamBlock,
           FourBytes, ToBigEndian, Pow, Written, FromBigEndian;
      var len := |plaintext|;
      var nonce := MixedNonce(clientWriteIv, sequenceNumber);
      ghost var before, earlier := ciphertext[..], inputs;
      ghost var c, record := CounterMode(aes, clientWriteKey, nonce, plaintext), Record(aes, clientWriteKey, nonce, plaintext);
      WriteHeader(ciphertext, len);
      RecordEnds(aes, clientWriteKey, nonce, plaintext);
      FoldNothing(c);
      NoInput(earlier, nonce, (len + 15) / 16);
      WrittenEnds(len);
      var ghashAcc: Block := ZERO_BLOCK;
      var numBlocks := (len + 15) / 16;
      for blk := 0 to numBlocks
        invariant ciphertext[..] == Spliced(before, 0, record[..5 + Written(len, blk)])
        invariant ghashAcc == Fold(c, blk) && sequenceNumber == old(sequenceNumber)
        invariant inputs == earlier + RecordInputs(nonce, numBlocks)[..blk]
      {
        WrittenStep(len, blk);
        NextInput(earlier, nonce, numBlocks, blk);
        SplicePrefix(before, record, 5 + Written(len, blk), 5 + Written(len, blk + 1));
        FoldStep(c, blk);
        ghashAcc := EncryptBlock(plaintext, nonce, blk, ciphertext, ghashAcc);
      }
      var tagBytes := RunCipher(clientWriteKey, nonce + FourBytes(1));
      WriteTag(ciphertext, 5 + len, tagBytes, ghashAcc);
      SplicePrefix(before, record, 5 + len, 21 + len);
      assert record[..21 + len] == record;
      LastInput(earlier, nonce, numBlocks);
      InputsSpelled(nonce, numBlocks);
      sequenceNumber := (sequenceNumber + 1) % SEQUENCE_SPACE;
    }

    /** One round: a keystream block, the ciphertext it makes, and that mixed into the accumulator. */
    method EncryptBlock(plaintext: seq<byte>, nonce: seq<byte>, blk: nat, ciphertext: array<byte>, ghash: Block)
      returns (acc: Block)
      requires |nonce| == 12 && 16 * blk < |plaintext| && |plaintext| + 21 <= ciphertext.Length
      modifies this`inputs, ciphertext
      ensures ciphertext[..] == Spliced(old(ciphertext[..]), 5 + 16 * blk,
                                        Record(aes, clientWriteKey, nonce, plaintext)
                                        [5 + 16 * blk..5 + Written(|plaintext|, blk + 1)])
      ensures acc == XorSeq(ghash, PaddedBlock(CounterMode(aes, clientWriteKey, nonce, plaintext), blk))
      ensures inputs == old(inputs) + [CounterBlock(nonce, blk + 2)]
    {
      hide XorByte, XorSeq, Spliced, Record, CounterMode, Aes, PaddedBlock, KeystreamBlock, FourBytes, ToBigEndian, Zeros;
      var offset := blk * 16;
      var counterBlock: Block := nonce + FourBytes(blk + 2);
      var keystream := RunCipher(clientWriteKey, counterBlock);
      KeystreamIsCipher(aes, clientWriteKey, nonce, blk);
      var chunkLen := if 16 < |plaintext| - offset then 16 else |plaintext| - offset;
      ChunkOfCounterMode(aes, clientWriteKey, nonce, plaintext, blk, chunkLen);
      RecordMiddle(aes, clientWriteKey, nonce, plaintext, offset, chunkLen);
      PaddedChunk(CounterMode(aes, clientWriteKey, nonce, plaintext), blk, chunkLen);
      ghost var before, chunk := ciphertext[..], XorSeq(plaintext[offset..offset + chunkLen], keystream[..chunkLen]);
      XorChunk(plaintext, keystream, ciphertext, offset, chunkLen);
      SplicedAt(before, 5 + offset, chunk);
      var ctBlock: Block := ciphertext[5 + offset..5 + offset + chunkLen] + Zeros(16 - chunkLen);
      acc := XorSeq(ghash, ctBlock);
    }

    /** One evaluation of the circuit on the wires of key and input. */
    method RunCipher(key: Block, input: Block) returns (output: Block)
      modifies this`inputs
      ensures output == Aes(aes, key, input)
      ensures inputs == old(inputs) + [input]
    {
      var keyBools, inBools := new bool[128], new bool[128];
      BytesToBools(key, keyBools);
      BytesToBools(input, inBools);
      var revealed := aes(keyBools[..], inBools[..]);
      var bytes := new byte[16];
      BoolsToBytes(revealed, bytes);
      output := bytes[..];
      inputs := inputs + [input];
    }
  }

  const KEY_LABEL: seq<byte> := [0x6B, 0x65, 0x79]  // "key"
  const IV_LABEL: seq<byte> := [0x69, 0x76]  // "iv"
  const SERVER_KEY_LABEL: seq<byte> := [0x73, 0x20, 0x61, 0x70, 0x20, 0x6B, 0x65, 0x79]  // "s ap key"

  function HandshakeSecret(shard: seq<byte>): (s: seq<byte>)
    ensures |s| == 48
  {
    if |shard| < 48 then shard + Zeros(48 - |shard|) else shard[..48]
  }

  lemma PaddedShard(shard: seq<byte>)
    ensures Spliced(Zeros(48), 0, if |shard| < 48 then shard[..|shard|] else shard[..48]) == HandshakeSecret(shard)
  {
  }

  /** How many ciphertext bytes the first `blk` rounds have written. */
  function Written(len: nat, blk: nat): (w: nat)
    ensures w <= len
  {
    if 16 * blk < len then 16 * blk else len
  }

  lemma WrittenStep(len: nat, blk: nat)
    requires 16 * blk < len
    ensures Written(len, blk) == 16 * blk
    ensures Written(len, blk + 1) == 16 * blk + if 16 < len - 16 * blk then 16 else len - 16 * blk
  {
  }

  lemma WrittenEnds(len: nat)
    ensures Written(len, 0) == 0 && Written(len, BlockCount(len)) == len
  {
  }

  method WriteHeader(ciphertext: array<byte>, len: nat)
    requires 5 <= ciphertext.Length
    modifies ciphertext
    ensures ciphertext[..] == Spliced(old(ciphertext[..]), 0, Header(len))
  {
    var recordLen := len + 16;
    ciphertext[0] := 0x17;
    ciphertext[1] := 0x03;
    ciphertext[2] := 0x03;
    ciphertext[3] := (recordLen / 0x100) % 0x100;
    ciphertext[4] := recordLen % 0x100;
    TwoDigits(recordLen);
  }

  /** A 32-bit counter by shifts and masks. */
  function FourBytes(n: nat): (bytes: seq<byte>)
    ensures bytes == ToBigEndian(n, 4)
  {
    TwoDigits(n / 256 / 256);
    assert ToBigEndian(n / 256, 3) == ToBigEndian(n / 256 / 256, 2) + [(n / 256) % 256];
    assert n / 256 / 256 == n / 0x10000 && n / 256 / 256 / 256 == n / 0x1000000;
    [(n / 0x1000000) % 0x100, (n / 0x10000) % 0x100, (n / 0x100) % 0x100, n % 0x100]
  }

  method MixedNonce(iv: seq<byte>, seqno: nat) returns (nonce: seq<byte>)
    requires |iv| == 12
    ensures nonce == Nonce(iv, seqno)
  {
    nonce := iv;
    ghost var spelled := ToBigEndian(seqno, 8);
    for i := 0 to 8
      invariant |nonce| == 12
      invariant nonce[..12 - i] == iv[..12 - i]
      invariant forall k :: 12 - i <= k < 12 ==> nonce[k] == XorByte(iv[k], spelled[k - 4])
    {
      ToBigEndianDigit(seqno, 8, 7 - i);
      nonce := nonce[11 - i := XorByte(nonce[11 - i], (seqno / Pow(256, i)) % 256)];
    }
    assert nonce[..4] == iv[..4];
    assert nonce == Nonce(iv, seqno);
  }

  /** The inner loop of one round: mixes a chunk of plaintext with the keystream block. */
  method XorChunk(plaintext: seq<byte>, keystream: Block, ciphertext: array<byte>, offset: nat, chunkLen: nat)
    requires offset + chunkLen <= |plaintext| && chunkLen <= 16
    requires 5 + |plaintext| <= ciphertext.Length
    modifies ciphertext
    ensures ciphertext[..] == Spliced(old(ciphertext[..]), 5 + offset,
                                      XorSeq(plaintext[offset..offset + chunkLen], keystream[..chunkLen]))
  {
    ghost var mixed := XorSeq(plaintext[offset..offset + chunkLen], keystream[..chunkLen]);
    assert ciphertext[..] == Spliced(old(ciphertext[..]), 5 + offset, mixed[..0]);
    for b := 0 to chunkLen
      invariant ciphertext[..] == Spliced(old(ciphertext[..]), 5 + offset, mixed[..b])
    {
      SpliceNext(old(ciphertext[..]), 5 + offset, mixed, b);
      ciphertext[5 + offset + b] := XorByte(plaintext[offset + b], keystream[b]);
    }
    assert mixed[..chunkLen] == mixed;
  }

  method WriteTag(ciphertext: array<byte>, base: nat, tagBytes: Block, ghash: Block)
    requires base + 16 <= ciphertext.Length
    modifies ciphertext
    ensures ciphertext[..] == Spliced(old(ciphertext[..]), base, XorSeq(tagBytes, ghash))
  {
    ghost var tag := XorSeq(tagBytes, ghash);
    assert ciphertext[..] == Spliced(old(ciphertext[..]), base, tag[..0]);
    for b := 0 to 16
      invariant ciphertext[..] == Spliced(old(ciphertext[..]), base, tag[..b])
    {
      SpliceNext(old(ciphertext[..]), base, tag, b);
      ciphertext[base + b] := XorByte(tagBytes[b], ghash[b]);
    }
    assert tag[..16] == tag;
  }

  /** A chunk mixed with keystream block `k` is the matching stretch of counter mode. */
  lemma ChunkOfCounterMode(aes: Circuit, key: Block, nonce: seq<byte>, text: seq<byte>, k: nat, chunkLen: nat)
    requires |nonce| == 12 && 16 * k + chunkLen <= |text| && chunkLen <= 16
    ensures XorSeq(text[16 * k..16 * k + chunkLen], KeystreamBlock(aes, key, nonce, k)[..chunkLen])
         == CounterMode(aes, key, nonce, text)[16 * k..16 * k + chunkLen]
  {
    hide XorByte, KeystreamBlock;
    var whole := CounterMode(aes, key, nonce, text);
    var part := XorSeq(text[16 * k..16 * k + chunkLen], KeystreamBlock(aes, key, nonce, k)[..chunkLen]);
    forall b | 0 <= b < chunkLen
      ensures part[b] == whole[16 * k + b]
    {
      assert (16 * k + b) / 16 == k && (16 * k + b) % 16 == b;
    }
  }

  /** The record holds the counter mode text after its header. */
  lemma RecordMiddle(aes: Circuit, key: Block, nonce: seq<byte>, text: seq<byte>, at: nat, n: nat)
    requires |nonce| == 12 && at + n <= |text|
    ensures Record(aes, key, nonce, text)[5 + at..5 + at + n] == CounterMode(aes, key, nonce, text)[at..at + n]
  {
    hide CounterMode, Tag, Header;
    var c := CounterMode(aes, key, nonce, text);
    Middle(Header(|text|), c, Tag(aes, key, nonce, c), at, n);
  }

  lemma PaddedChunk(c: seq<byte>, k: nat, n: nat)
    requires 16 * k < |c| && n == if 16 < |c| - 16 * k then 16 else |c| - 16 * k
    ensures PaddedBlock(c, k) == c[16 * k..16 * k + n] + Zeros(16 - n)
  {
    hide Zeros;
  }

  lemma Middle(h: seq<byte>, c: seq<byte>, t: seq<byte>, at: nat, n: nat)
    requires at + n <= |c|
    ensures (h + c + t)[|h| + at..|h| + at + n] == c[at..at + n]
  {
  }

  lemma RecordEnds(aes: Circuit, key: Block, nonce: seq<byte>, text: seq<byte>)
    requires |nonce| == 12
    ensures Record(aes, key, nonce, text)[..5] == Header(|text|)
    ensures Record(aes, key, nonce, text)[5 + |text|..21 + |text|]
         == XorSeq(Aes(aes, key, CounterBlock(nonce, 1)), Fold(CounterMode(aes, key, nonce, text), BlockCount(|text|)))
  {
    hide XorSeq, Aes, CounterBlock, Fold, CounterMode, Header;
  }

  lemma KeystreamIsCipher(aes: Circuit, key: Block, nonce: seq<byte>, k: nat)
    requires |nonce| == 12
    ensures KeystreamBlock(aes, key, nonce, k) == Aes(aes, key, CounterBlock(nonce, k + 2))
  {
  }

  lemma FoldNothing(c: seq<byte>)
    ensures Fold(c, 0) == ZERO_BLOCK
  {
  }

  lemma FoldStep(c: seq<byte>, k: nat)
    requires 16 * k < |c|
    ensures Fold(c, k + 1) == XorSeq(Fold(c, k), PaddedBlock(c, k))
  {
  }

  /** Twelve bytes of nonce, then the counter as a big-endian number. */
  lemma CounterBlockFields(nonce: seq<byte>, counter: nat)
    requires |nonce| == 12 && counter < 0x1_0000_0000
    ensures CounterBlock(nonce, counter)[..12] == nonce
    ensures FromBigEndian(CounterBlock(nonce, counter)[12..]) == counter
  {
    hide ToBigEndian, FromBigEndian;
    assert Pow(256, 4) == 0x1_0000_0000;
    IntegerRoundTrip(counter, 4);
    assert CounterBlock(nonce, counter)[12..] == ToBigEndian(counter, 4);
  }

  lemma InputsSpelled(nonce: seq<byte>, blocks: nat)
    requires |nonce| == 12
    ensures forall j :: 0 <= j <= blocks < 0xFFFF_FFFE ==>
              var input := RecordInputs(nonce, blocks)[j];
              input[..12] == nonce && FromBigEndian(input[12..]) == if j < blocks then j + 2 else 1
  {
    hide CounterBlock, FromBigEndian;
    forall j | 0 <= j <= blocks < 0xFFFF_FFFE
      ensures var input := RecordInputs(nonce, blocks)[j];
              input[..12] == nonce && FromBigEndian(input[12..]) == if j < blocks then j + 2 else 1
    {
      CounterBlockFields(nonce, if j < blocks then j + 2 else 1);
    }
  }

  lemma NoInput(earlier: seq<Block>, nonce: seq<byte>, blocks: nat)
    requires |nonce| == 12
    ensures earlier + RecordInputs(nonce, blocks)[..0] == earlier
  {
  }

  lemma NextInput(earlier: seq<Block>, nonce: seq<byte>, blocks: nat, k: nat)
    requires |nonce| == 12 && k < blocks
    ensures earlier + RecordInputs(nonce, blocks)[..k] + [CounterBlock(nonce, k + 2)]
         == earlier + RecordInputs(nonce, blocks)[..k + 1]
  {
    hide CounterBlock;
    assert RecordInputs(nonce, blocks)[..k + 1] == RecordInputs(nonce, blocks)[..k] + [CounterBlock(nonce, k + 2)];
  }

  lemma LastInput(earlier: seq<Block>, nonce: seq<byte>, blocks: nat)
    requires |nonce| == 12
    ensures earlier + RecordInputs(nonce, blocks)[..blocks] + [CounterBlock(nonce, 1)]
         == earlier + RecordInputs(nonce, blocks)
  {
  }
}
