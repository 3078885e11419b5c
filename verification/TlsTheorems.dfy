/**
 * Properties of the record layer: no cipher input repeats over a run, records
 * open to what was sealed, and the key derivations cannot be confused.
 */
module TlsTheorems {
  import opened Buffers
  import opened Bytes
  import opened Tls
  import opened Wrappers

  // ------------------------------------------------ cipher inputs of a run

  /** The cipher inputs of records with the given plaintext lengths, the first one numbered `start`. */
  function RunInputs(iv: seq<byte>, start: nat, lens: seq<nat>): seq<Block>
    requires |iv| == 12
  {
    if lens == [] then []
    else
      RunInputs(iv, start, lens[..|lens| - 1])
      + RecordInputs(Nonce(iv, RecordNumber(start, |lens| - 1)), BlockCount(lens[|lens| - 1]))
  }

  /** The sequence number of record `k`: a 64-bit counter. */
  function RecordNumber(start: nat, k: nat): (s: nat)
    ensures s < SEQUENCE_SPACE
  {
    (start + k) % SEQUENCE_SPACE
  }

  ghost predicate NoRepeat(inputs: seq<Block>) {
    forall i, j :: 0 <= i < j < |inputs| ==> inputs[i] != inputs[j]
  }

  /** `b` is an input of record `k` of the run: its counter is 1, or 2 and up within the plaintext. */
  ghost predicate FromRecord(iv: seq<byte>, start: nat, lens: seq<nat>, k: nat, b: Block)
    requires |iv| == 12 && k < |lens|
  {
    exists c :: 1 <= c <= BlockCount(lens[k]) + 1 && b == CounterBlock(Nonce(iv, RecordNumber(start, k)), c)
  }

  lemma NonceInjective(iv: seq<byte>, a: nat, b: nat)
    requires |iv| == 12 && a < SEQUENCE_SPACE && b < SEQUENCE_SPACE && Nonce(iv, a) == Nonce(iv, b)
    ensures a == b
  {
    var x, y := ToBigEndian(a, 8), ToBigEndian(b, 8);
    forall i | 0 <= i < 8
      ensures x[i] == y[i]
    {
      assert Nonce(iv, a)[4 + i] == Nonce(iv, b)[4 + i];
      assert iv[4..][i] == iv[4 + i];
      XorByteCancel(iv[4 + i], x[i]);
      XorByteCancel(iv[4 + i], y[i]);
    }
    assert x == y;
    ToBigEndianInjective(a, b, 8);
  }

  lemma CounterBlockInjective(n: seq<byte>, m: seq<byte>, a: nat, b: nat)
    requires |n| == 12 && |m| == 12 && a < 0x1_0000_0000 && b < 0x1_0000_0000
    requires CounterBlock(n, a) == CounterBlock(m, b)
    ensures n == m && a == b
  {
    assert CounterBlock(n, a)[..12] == n && CounterBlock(m, b)[..12] == m;
    assert CounterBlock(n, a)[12..] == ToBigEndian(a, 4) && CounterBlock(m, b)[12..] == ToBigEndian(b, 4);
    ToBigEndianInjective(a, b, 4);
  }

  ghost predicate LengthsFit(lens: seq<nat>) {
    forall k :: 0 <= k < |lens| ==> lens[k] < 0x8000_0000
  }

  lemma RecordInputsDistinct(nonce: seq<byte>, blocks: nat)
    requires |nonce| == 12 && blocks + 2 < 0x1_0000_0000
    ensures NoRepeat(RecordInputs(nonce, blocks))
  {
    var s := RecordInputs(nonce, blocks);
    forall i, j | 0 <= i < j < |s|
      ensures s[i] != s[j]
    {
      if s[i] == s[j] {
        CounterBlockInjective(nonce, nonce, i + 2, if j < blocks then j + 2 else 1);
      }
    }
  }

  lemma RecordInputsFrom(iv: seq<byte>, start: nat, lens: seq<nat>, k: nat, i: nat)
    requires |iv| == 12 && k < |lens| && i < BlockCount(lens[k]) + 1
    ensures FromRecord(iv, start, lens, k, RecordInputs(Nonce(iv, RecordNumber(start, k)), BlockCount(lens[k]))[i])
  {
    var c := if i < BlockCount(lens[k]) then i + 2 else 1;
    assert 1 <= c <= BlockCount(lens[k]) + 1;
  }

  /** Every input of a run belongs to one of its records. */
  lemma {:induction false} RunInputsFrom(iv: seq<byte>, start: nat, lens: seq<nat>, i: nat) returns (k: nat)
    requires |iv| == 12 && i < |RunInputs(iv, start, lens)|
    ensures k < |lens| && FromRecord(iv, start, lens, k, RunInputs(iv, start, lens)[i])
  {
    var front, last := lens[..|lens| - 1], |lens| - 1;
    if i < |RunInputs(iv, start, front)| {
      k := RunInputsFrom(iv, start, front, i);
      assert front[k] == lens[k];
    } else {
      k := last;
      RecordInputsFrom(iv, start, lens, k, i - |RunInputs(iv, start, front)|);
    }
  }

  /** Records of different numbers, of one run or of two, have no cipher input in common. */
  lemma NumbersApart(iv: seq<byte>, start: nat, lens: seq<nat>, j: nat, other: nat, others: seq<nat>, k: nat, b: Block)
    requires |iv| == 12 && LengthsFit(lens) && LengthsFit(others) && j < |lens| && k < |others|
    requires RecordNumber(start, j) != RecordNumber(other, k) && FromRecord(iv, start, lens, j, b)
    ensures !FromRecord(iv, other, others, k, b)
  {
    hide CounterBlock, Nonce, RecordNumber;
    if FromRecord(iv, other, others, k, b) {
      var s, t := RecordNumber(start, j), RecordNumber(other, k);
      var c :| 1 <= c <= BlockCount(lens[j]) + 1 && b == CounterBlock(Nonce(iv, s), c);
      var d :| 1 <= d <= BlockCount(others[k]) + 1 && b == CounterBlock(Nonce(iv, t), d);
      CounterBlockInjective(Nonce(iv, s), Nonce(iv, t), c, d);
      NonceInjective(iv, s, t);
    }
  }

  lemma NumbersDiffer(start: nat, j: nat, k: nat)
    requires j < k && k - j < SEQUENCE_SPACE
    ensures RecordNumber(start, j) != RecordNumber(start, k)
  {
    var apart := (start + k) - (start + j);
    assert 0 < apart < SEQUENCE_SPACE;
  }

  lemma FromLonger(iv: seq<byte>, start: nat, lens: seq<nat>, n: nat, k: nat, b: Block)
    requires |iv| == 12 && k < n <= |lens| && FromRecord(iv, start, lens[..n], k, b)
    ensures FromRecord(iv, start, lens, k, b)
  {
    assert lens[..n][k] == lens[k];
  }

  lemma {:induction false} ShortRunDistinct(iv: seq<byte>, start: nat, lens: seq<nat>)
    requires |iv| == 12 && LengthsFit(lens) && |lens| <= SEQUENCE_SPACE
    ensures NoRepeat(RunInputs(iv, start, lens))
    decreases |lens|
  {
    hide FromRecord, RecordNumber, Nonce, RecordInputs;
    if lens != [] {
      var last := |lens| - 1;
      var front := RunInputs(iv, start, lens[..last]);
      var record := RecordInputs(Nonce(iv, RecordNumber(start, last)), BlockCount(lens[last]));
      ShortRunDistinct(iv, start, lens[..last]);
      RecordInputsDistinct(Nonce(iv, RecordNumber(start, last)), BlockCount(lens[last]));
      forall i, j | 0 <= i < |front| && 0 <= j < |record|
        ensures front[i] != record[j]
      {
        var k := RunInputsFrom(iv, start, lens[..last], i);
        RecordInputsFrom(iv, start, lens, last, j);
        FromLonger(iv, start, lens, last, k, front[i]);
        NumbersDiffer(start, k, last);
        NumbersApart(iv, start, lens, k, start, lens, last, front[i]);
      }
      Concatenated(front, record);
    }
  }

  lemma Concatenated(a: seq<Block>, b: seq<Block>)
    requires NoRepeat(a) && NoRepeat(b)
    requires forall i, j :: 0 <= i < |a| && 0 <= j < |b| ==> a[i] != b[j]
    ensures NoRepeat(a + b)
  {
  }

  /** Where the J0 input of record `k` stands in the run. */
  lemma {:induction false} LastInputOfRecord(iv: seq<byte>, start: nat, lens: seq<nat>, k: nat) returns (at: nat)
    requires |iv| == 12 && k < |lens|
    ensures at < |RunInputs(iv, start, lens)|
    ensures RunInputs(iv, start, lens)[at] == CounterBlock(Nonce(iv, RecordNumber(start, k)), 1)
    ensures at + 1 == |RunInputs(iv, start, lens[..k + 1])|
    decreases |lens|
  {
    hide Nonce, CounterBlock, RecordNumber;
    var last := |lens| - 1;
    if k < last {
      at := LastInputOfRecord(iv, start, lens[..last], k);
      assert lens[..last][..k + 1] == lens[..k + 1];
    } else {
      at := |RunInputs(iv, start, lens)| - 1;
      assert lens[..k + 1] == lens;
    }
  }

  /**
   * Under one key and IV no cipher input is used twice exactly as long as the
   * 64-bit sequence number has not come round, wherever it started.
   */
  lemma InputsRepeatOnlyOnWrap(iv: seq<byte>, start: nat, lens: seq<nat>)
    requires |iv| == 12 && LengthsFit(lens)
    ensures NoRepeat(RunInputs(iv, start, lens)) <==> |lens| <= SEQUENCE_SPACE
  {
    if |lens| <= SEQUENCE_SPACE {
      ShortRunDistinct(iv, start, lens);
    } else {
      var a := LastInputOfRecord(iv, start, lens, 0);
      var b := LastInputOfRecord(iv, start, lens, SEQUENCE_SPACE);
      assert RecordNumber(start, 0) == RecordNumber(start, SEQUENCE_SPACE);
      LaterRecordLater(iv, start, lens, 1, SEQUENCE_SPACE + 1);
      assert a < b;
    }
  }

  lemma {:induction false} LaterRecordLater(iv: seq<byte>, start: nat, lens: seq<nat>, j: nat, k: nat)
    requires |iv| == 12 && j < k <= |lens|
    ensures |RunInputs(iv, start, lens[..j])| < |RunInputs(iv, start, lens[..k])|
    decreases k
  {
    assert lens[..k][..k - 1] == lens[..k - 1];
    if j < k - 1 {
      LaterRecordLater(iv, start, lens, j, k - 1);
    }
  }

  // ------------------------------------------------- two runs, one key

  /** Some record of the one run and some record of the other have the same number. */
  ghost predicate NumbersMeet(s: nat, m: nat, t: nat, n: nat) {
    exists j: nat, k: nat :: j < m && k < n && RecordNumber(s, j) == RecordNumber(t, k)
  }

  /** Two runs under one key and IV share a cipher input exactly when they share a record number. */
  lemma TwoRunsRepeat(iv: seq<byte>, s: nat, a: seq<nat>, t: nat, b: seq<nat>)
    requires |iv| == 12 && LengthsFit(a) && LengthsFit(b) && |a| <= SEQUENCE_SPACE && |b| <= SEQUENCE_SPACE
    ensures NoRepeat(RunInputs(iv, s, a) + RunInputs(iv, t, b)) <==> !NumbersMeet(s, |a|, t, |b|)
  {
    hide RunInputs, RecordNumber, FromRecord;
    var x, y := RunInputs(iv, s, a), RunInputs(iv, t, b);
    if NumbersMeet(s, |a|, t, |b|) {
      var j: nat, k: nat :| j < |a| && k < |b| && RecordNumber(s, j) == RecordNumber(t, k);
      var at := LastInputOfRecord(iv, s, a, j);
      var again := LastInputOfRecord(iv, t, b, k);
      assert (x + y)[at] == (x + y)[|x| + again];
    } else {
      ShortRunDistinct(iv, s, a);
      ShortRunDistinct(iv, t, b);
      forall i, l | 0 <= i < |x| && 0 <= l < |y|
        ensures x[i] != y[l]
      {
        var j := RunInputsFrom(iv, s, a, i);
        var k := RunInputsFrom(iv, t, b, l);
        NumbersApart(iv, s, a, j, t, b, k, x[i]);
      }
      Concatenated(x, y);
    }
  }

  /**
   * Key and IV depend on the shard alone and a new process numbers its
   * records from zero again: two processes with one shard share a cipher
   * input as soon as each has sealed a record.
   */
  lemma RestartRepeats(iv: seq<byte>, a: seq<nat>, b: seq<nat>)
    requires |iv| == 12 && LengthsFit(a) && LengthsFit(b) && |a| <= SEQUENCE_SPACE && |b| <= SEQUENCE_SPACE
    ensures NoRepeat(RunInputs(iv, 0, a) + RunInputs(iv, 0, b)) <==> a == [] || b == []
  {
    hide RunInputs, RecordNumber, NoRepeat, LengthsFit;
    TwoRunsRepeat(iv, 0, a, 0, b);
    if a != [] && b != [] {
      assert 0 < |a| && 0 < |b| && RecordNumber(0, 0) < SEQUENCE_SPACE;
    }
  }

  // ---------------------------------------------------- opening a record

  /** A receiver with the same key and nonce: reads the length, checks the tag, strips the keystream. */
  function OpenRecord(aes: Circuit, key: Block, nonce: seq<byte>, r: seq<byte>): Option<seq<byte>>
    requires |nonce| == 12
  {
    if |r| < 21 || r[0] != 0x17 || r[1] != 0x03 || r[2] != 0x03 || FromBigEndian(r[3..5]) + 5 != |r| then None
    else
      var c := r[5..|r| - 16];
      if r[|r| - 16..] != Tag(aes, key, nonce, c) then None
      else Some(CounterMode(aes, key, nonce, c))
  }

  lemma CounterModeInverts(aes: Circuit, key: Block, nonce: seq<byte>, text: seq<byte>)
    requires |nonce| == 12
    ensures CounterMode(aes, key, nonce, CounterMode(aes, key, nonce, text)) == text
  {
    var c := CounterMode(aes, key, nonce, text);
    forall i | 0 <= i < |text|
      ensures CounterMode(aes, key, nonce, c)[i] == text[i]
    {
      XorByteCancel(text[i], KeystreamBlock(aes, key, nonce, i / 16)[i % 16]);
    }
  }

  lemma HeaderLength(len: nat)
    ensures FromBigEndian(Header(len)[3..5]) == (len + 16) % 65536
  {
    TwoDigits(len + 16);
    assert Header(len)[3..5] == ToBigEndian(len + 16, 2);
    WordSpelled(((len + 16) / 0x100) % 0x100, (len + 16) % 0x100);
  }

  /** A sealed record opens to its plaintext exactly when its length fits the two header bytes. */
  lemma RecordOpens(aes: Circuit, key: Block, nonce: seq<byte>, text: seq<byte>)
    requires |nonce| == 12
    ensures OpenRecord(aes, key, nonce, Record(aes, key, nonce, text)) == Some(text) <==> |text| + 16 < 65536
    ensures OpenRecord(aes, key, nonce, Record(aes, key, nonce, text)) == None <==> |text| + 16 >= 65536
  {
    hide XorByte, Tag, CounterMode, FromBigEndian;
    var c := CounterMode(aes, key, nonce, text);
    var r := Record(aes, key, nonce, text);
    CounterModeInverts(aes, key, nonce, text);
    HeaderLength(|text|);
    assert r[3..5] == Header(|text|)[3..5];
    assert r[5..|r| - 16] == c && r[|r| - 16..] == Tag(aes, key, nonce, c);
    assert r[..3] == [0x17, 0x03, 0x03];
  }

  // ---------------------------------------------------------- whole runs

  function Lengths(texts: seq<seq<byte>>): (lens: seq<nat>)
    ensures |lens| == |texts|
    ensures forall k :: 0 <= k < |texts| ==> lens[k] == |texts[k]|
  {
    seq(|texts|, k requires 0 <= k < |texts| => |texts[k]|)
  }

  /** What one more record adds to the run. */
  lemma NextRecord(iv: seq<byte>, start: nat, lens: seq<nat>, k: nat)
    requires |iv| == 12 && k < |lens|
    ensures RunInputs(iv, start, lens[..k + 1])
         == RunInputs(iv, start, lens[..k]) + RecordInputs(Nonce(iv, RecordNumber(start, k)), BlockCount(lens[k]))
  {
    hide Nonce, RecordInputs, RecordNumber;
    assert lens[..k + 1][..k] == lens[..k];
  }

  lemma NextNumber(start: nat, k: nat)
    ensures RecordNumber(start, k + 1) == (RecordNumber(start, k) + 1) % SEQUENCE_SPACE
  {
  }

  /**
   * A session seals texts one after the other: its cipher inputs are those
   * of the run, which repeat only once the sequence number comes round, and
   * each record opens, under the nonce of its own number, to its text.
   */
  method EncryptRun(session: MpcTlsSession, texts: seq<seq<byte>>, buffer: array<byte>) returns (records: seq<seq<byte>>)
    requires session.Valid() && session.inputs == []
    requires forall k :: 0 <= k < |texts| ==> |texts[k]| + 21 <= buffer.Length
    modifies session, buffer
    ensures session.Valid() && session.clientWriteIv == old(session.clientWriteIv)
    ensures session.inputs == RunInputs(session.clientWriteIv, old(session.sequenceNumber), Lengths(texts))
    ensures LengthsFit(Lengths(texts)) ==> (NoRepeat(session.inputs) <==> |texts| <= SEQUENCE_SPACE)
    ensures |records| == |texts|
    ensures forall k :: 0 <= k < |texts| && |texts[k]| + 16 < 65536 ==>
              OpenRecord(session.aes, session.clientWriteKey,
                         Nonce(session.clientWriteIv, RecordNumber(old(session.sequenceNumber), k)), records[k])
              == Some(texts[k])
  {
    hide RunInputs, RecordInputs, Nonce, Record, OpenRecord, Spliced, RecordNumber, NoRepeat, LengthsFit;
    ghost var start, lens := session.sequenceNumber, Lengths(texts);
    records := [];
    RunStarts(session.clientWriteIv, start, lens);
    for k := 0 to |texts|
      invariant session.Valid() && session.sequenceNumber == RecordNumber(start, k)
      invariant session.clientWriteIv == old(session.clientWriteIv)
      invariant session.clientWriteKey == old(session.clientWriteKey)
      invariant session.inputs == RunInputs(session.clientWriteIv, start, lens[..k])
      invariant |records| == k
      invariant forall j :: 0 <= j < k && |texts[j]| + 16 < 65536 ==>
                  OpenRecord(session.aes, session.clientWriteKey,
                             Nonce(session.clientWriteIv, RecordNumber(start, j)), records[j]) == Some(texts[j])
    {
      NextNumber(start, k);
      NextRecord(session.clientWriteIv, start, lens, k);
      ghost var nonce := Nonce(session.clientWriteIv, RecordNumber(start, k));
      ghost var before := buffer[..];
      session.Encrypt(texts[k], buffer);
      SplicedAt(before, 0, Record(session.aes, session.clientWriteKey, nonce, texts[k]));
      RecordOpens(session.aes, session.clientWriteKey, nonce, texts[k]);
      records := records + [buffer[0..|texts[k]| + 21]];
    }
    assert lens[..|texts|] == lens;
    if LengthsFit(lens) {
      InputsRepeatOnlyOnWrap(session.clientWriteIv, start, lens);
    }
  }

  lemma RunStarts(iv: seq<byte>, start: nat, lens: seq<nat>)
    requires |iv| == 12 && start < SEQUENCE_SPACE
    ensures RunInputs(iv, start, lens[..0]) == [] && RecordNumber(start, 0) == start
  {
  }

  // ----------------------------------------------------- key derivation

  /** Different output lengths or labels give different HKDF inputs. */
  lemma HkdfLabelInjective(n: nat, purpose: seq<byte>, m: nat, other: seq<byte>)
    requires n < 65536 && m < 65536 && |purpose| < 250 && |other| < 250
    requires HkdfLabel(n, purpose) == HkdfLabel(m, other)
    ensures n == m && purpose == other
  {
    var x, y := HkdfLabel(n, purpose), HkdfLabel(m, other);
    assert x[..2] == ToBigEndian(n, 2) && y[..2] == ToBigEndian(m, 2);
    ToBigEndianInjective(n, m, 2);
    assert x[2] == 6 + |purpose| && y[2] == 6 + |other|;
    assert x[9..|x| - 1] == purpose && y[9..|y| - 1] == other;
  }

  /**
   * Within the 8160 bytes the standard allows no HMAC message is used twice,
   * neither in one expansion nor, for a first block, across two labels.
   */
  lemma MessagesDistinct(hmac: Hmac, secret: seq<byte>, n: nat, purpose: seq<byte>, m: nat, other: seq<byte>, i: nat, j: nat)
    requires n <= 8160 && m <= 8160 && |purpose| <= 54 && |other| <= 54
    requires 0 < i <= (n + 31) / 32 && 0 < j <= (m + 31) / 32
    requires (n, purpose) != (m, other) ==> i == j == 1
    requires (n, purpose, i) != (m, other, j)
    ensures Message(hmac, secret, HkdfLabel(n, purpose), i) != Message(hmac, secret, HkdfLabel(m, other), j)
  {
    hide T, HkdfLabel;
    var x, y := Message(hmac, secret, HkdfLabel(n, purpose), i), Message(hmac, secret, HkdfLabel(m, other), j);
    assert x[|x| - 1] == i && y[|y| - 1] == j;
    if x == y {
      assert x[..|x| - 1] == HkdfLabel(n, purpose) && y[..|y| - 1] == HkdfLabel(m, other);
      HkdfLabelInjective(n, purpose, m, other);
    }
  }
}
