/**
 * The header in front of a ciphertext: a circuit hash, chunk commitments and
 * a signature as hexadecimal texts in JSON. What the forwarder's extractors
 * read back from one that is written out.
 */
module ProofHeader {
  import opened Bytes
  import opened Json
  import opened Wrappers

  const SPACE: byte := 32
  const COMMA: byte := 44
  const LEFT_BRACE: byte := 123
  const RIGHT_BRACE: byte := 125

  const CIRCUIT_HASH: seq<byte> := [99, 105, 114, 99, 117, 105, 116, 95, 104, 97, 115, 104]  // "circuit_hash"
  const COMMITMENTS: seq<byte> := [99, 111, 109, 109, 105, 116, 109, 101, 110, 116, 115]  // "commitments"
  const SIGNATURE: seq<byte> := [115, 105, 103, 110, 97, 116, 117, 114, 101]  // "signature"

  predicate IsHex(s: seq<byte>) {
    s != [] && forall i :: 0 <= i < |s| ==> 48 <= s[i] <= 57 || 97 <= s[i] <= 102
  }

  type HexText = s: seq<byte> | IsHex(s) witness [48]

  datatype Proof = Proof(circuitHash: seq<byte>, signature: seq<byte>, commitments: seq<seq<byte>>)

  /** The three extractions. */
  function ReadHeader(header: seq<byte>): Proof {
    Proof(GetString(header, CIRCUIT_HASH), GetString(header, SIGNATURE), StringArray(header, COMMITMENTS))
  }

  // --------------------------------------------------------------- writing

  ghost predicate Written(p: Proof) {
    && IsHex(p.circuitHash) && IsHex(p.signature)
    && p.commitments != [] && forall i :: 0 <= i < |p.commitments| ==> IsHex(p.commitments[i])
  }

  function Blanks(n: nat): (b: seq<byte>)
    ensures |b| == n && forall i :: 0 <= i < n ==> b[i] == SPACE
  {
    seq(n, _ => SPACE)
  }

  /** The commitments with what stands between their quotes. */
  function Items(commitments: seq<seq<byte>>, comma: seq<byte>): (pieces: seq<seq<byte>>)
    requires commitments != []
    ensures |pieces| == 2 * |commitments| - 1
  {
    if |commitments| == 1 then commitments else [commitments[0], comma] + Items(commitments[1..], comma)
  }

  function Before(p: Proof, gap: nat): (pieces: seq<seq<byte>>)
    ensures |pieces| == 7
  {
    [[LEFT_BRACE], CIRCUIT_HASH, [COLON] + Blanks(gap), p.circuitHash, [COMMA] + Blanks(gap), COMMITMENTS,
     [COLON] + Blanks(gap) + [OPEN]]
  }

  function After(p: Proof, gap: nat): (pieces: seq<seq<byte>>)
    ensures |pieces| == 5
  {
    [[CLOSE, COMMA] + Blanks(gap), SIGNATURE, [COLON] + Blanks(gap), p.signature, [RIGHT_BRACE]]
  }

  /** The header between its quotes. */
  function HeaderPieces(p: Proof, gap: nat): (pieces: seq<seq<byte>>)
    requires p.commitments != []
    ensures |pieces| == 2 * |p.commitments| + 11
  {
    Before(p, gap) + Items(p.commitments, [COMMA] + Blanks(gap)) + After(p, gap)
  }

  /** {"circuit_hash": "...", "commitments": ["...", ...], "signature": "..."} with `gap` blanks after each mark. */
  function Header(p: Proof, gap: nat): seq<byte>
    requires p.commitments != []
  {
    Join(HeaderPieces(p, gap))
  }

  // --------------------------------------------------------------- reading

  ghost predicate Free(pieces: seq<seq<byte>>, c: byte) {
    forall i :: 0 <= i < |pieces| ==> c !in pieces[i]
  }

  lemma HexFree(s: seq<byte>, c: byte)
    requires IsHex(s) && (c < 48 || c > 102 || 57 < c < 97)
    ensures c !in s
  {
  }

  lemma {:induction false} ItemsFree(commitments: seq<seq<byte>>, comma: seq<byte>, c: byte)
    requires commitments != [] && c !in comma && Free(commitments, c)
    ensures Free(Items(commitments, comma), c)
  {
    if |commitments| > 1 {
      var rest := commitments[1..];
      ItemsFree(rest, comma, c);
      assert Free([commitments[0], comma], c);
      FreeAppend([commitments[0], comma], Items(rest, comma), c);
    }
  }

  lemma FreeAppend(a: seq<seq<byte>>, b: seq<seq<byte>>, c: byte)
    requires Free(a, c) && Free(b, c)
    ensures Free(a + b, c)
  {
  }

  lemma CommitmentsFree(p: Proof, c: byte)
    requires Written(p) && (c < 48 || c > 102 || 57 < c < 97)
    ensures Free(p.commitments, c)
  {
    forall i | 0 <= i < |p.commitments|
      ensures c !in p.commitments[i]
    {
      HexFree(p.commitments[i], c);
    }
  }

  /** No piece of a header holds a quote or a newline. */
  lemma HeaderFree(p: Proof, gap: nat, c: byte)
    requires Written(p) && (c == QUOTE || c == LF)
    ensures Free(HeaderPieces(p, gap), c)
  {
    var comma := [COMMA] + Blanks(gap);
    CommitmentsFree(p, c);
    ItemsFree(p.commitments, comma, c);
    HexFree(p.circuitHash, c);
    HexFree(p.signature, c);
    assert c !in Blanks(gap);
    assert c !in CIRCUIT_HASH && c !in COMMITMENTS && c !in SIGNATURE;
    MarksFree(gap, c);
    FreeAppend(Before(p, gap), Items(p.commitments, comma), c);
    FreeAppend(Before(p, gap) + Items(p.commitments, comma), After(p, gap), c);
  }

  lemma MarksFree(gap: nat, c: byte)
    requires c == QUOTE || c == LF
    ensures c !in [LEFT_BRACE] && c !in [RIGHT_BRACE] && c !in [COLON] + Blanks(gap) && c !in [COMMA] + Blanks(gap)
    ensures c !in [COLON] + Blanks(gap) + [OPEN] && c !in [CLOSE, COMMA] + Blanks(gap)
  {
  }

  lemma {:induction false} JoinFree(pieces: seq<seq<byte>>, c: byte)
    requires pieces != [] && Free(pieces, c) && c != QUOTE
    ensures c !in Join(pieces)
  {
    if |pieces| > 1 {
      JoinFree(pieces[1..], c);
    }
  }

  lemma {:induction false} AfterKeyAt(pieces: seq<seq<byte>>, key: seq<byte>, i: nat)
    requires 0 < i < |pieces| - 1 && pieces[i] == key && forall k :: 0 < k < i ==> pieces[k] != key
    ensures AfterKey(pieces, key) == Some(pieces[i + 1..])
    decreases i
  {
    if i > 1 {
      AfterKeyAt(pieces[1..], key, i - 1);
      assert pieces[1..][i..] == pieces[i + 1..];
    }
  }

  lemma {:induction false} BeforeByteAt(pieces: seq<seq<byte>>, c: byte, i: nat)
    requires i < |pieces| && pieces[i] != [] && pieces[i][0] == c && forall k :: 0 <= k < i ==> c !in pieces[k]
    ensures BeforeByte(pieces, c) == Some(pieces[..i] + [[]])
    decreases i
  {
    hide Find;
    if i == 0 {
      FindsAt(pieces[0], c, 0, 0);
      assert pieces[..0] + [[]] == [pieces[0][..0]];
    } else {
      FindNothing(pieces[0], c, 0);
      BeforeByteAt(pieces[1..], c, i - 1);
      assert [pieces[0]] + (pieces[1..][..i - 1] + [[]]) == pieces[..i] + [[]];
    }
  }

  lemma {:induction false} ItemsBack(commitments: seq<seq<byte>>, comma: seq<byte>, first: seq<byte>, last: seq<byte>)
    requires commitments != []
    ensures EverySecond([first] + Items(commitments, comma) + [last]) == commitments
    decreases |commitments|
  {
    var pieces := [first] + Items(commitments, comma) + [last];
    if |commitments| > 1 {
      ItemsBack(commitments[1..], comma, comma, last);
      assert pieces[2..] == [comma] + Items(commitments[1..], comma) + [last];
    } else {
      assert pieces[2..] == [last];
    }
  }

  /** The value after a colon that starts the piece after the key. */
  lemma ValueAt(pieces: seq<seq<byte>>, key: seq<byte>, i: nat)
    requires 0 < i < |pieces| - 3 && pieces[i] == key && forall k :: 0 < k < i ==> pieces[k] != key
    requires pieces[i + 1] != [] && pieces[i + 1][0] == COLON
    ensures PieceValue(pieces, key) == pieces[i + 2]
  {
    hide Find, AfterKey;
    AfterKeyAt(pieces, key, i);
    FindsAt(pieces[i + 1], COLON, 0, 0);
  }

  lemma ArrayAt(pieces: seq<seq<byte>>, key: seq<byte>, i: nat, commitments: seq<seq<byte>>, comma: seq<byte>)
    requires commitments != []
    requires var end := i + 2 * |commitments| + 1;
             && 0 < i && end < |pieces| && pieces[i] == key && (forall k :: 0 < k < i ==> pieces[k] != key)
             && pieces[i + 2..end] == Items(commitments, comma)
             && pieces[end] != [] && pieces[end][0] == CLOSE
    requires Free(commitments, CLOSE) && CLOSE !in comma
    requires pieces[i + 1] != [] && pieces[i + 1][|pieces[i + 1]| - 1] == OPEN
    requires OPEN !in pieces[i + 1][..|pieces[i + 1]| - 1]
    ensures PieceArray(pieces, key) == commitments
  {
    hide Find, AfterKey, AfterByte, BeforeByte, EverySecond, Items, Free;
    var end, more := i + 2 * |commitments| + 1, [[]] + pieces[i + 2..];
    AfterKeyAt(pieces, key, i);
    AfterMark(pieces[i + 1..]);
    assert pieces[i + 1..][1..] == pieces[i + 2..];
    Shifted(pieces, i + 2, end);
    Inside(more, commitments, comma);
  }

  lemma AfterMark(rest: seq<seq<byte>>)
    requires rest != [] && rest[0] != [] && rest[0][|rest[0]| - 1] == OPEN && OPEN !in rest[0][..|rest[0]| - 1]
    ensures AfterByte(rest, OPEN) == Some([[]] + rest[1..])
  {
    hide Find;
    LastByte(rest[0], OPEN);
  }

  lemma Shifted(pieces: seq<seq<byte>>, at: nat, end: nat)
    requires at <= end < |pieces|
    ensures var more := [[]] + pieces[at..];
            |more| > end - at + 1 && more[1..end - at + 1] == pieces[at..end] && more[end - at + 1] == pieces[end]
  {
  }

  lemma Inside(more: seq<seq<byte>>, commitments: seq<seq<byte>>, comma: seq<byte>)
    requires commitments != [] && Free(commitments, CLOSE) && CLOSE !in comma
    requires |more| > 2 * |commitments| && more[0] == [] && more[1..2 * |commitments|] == Items(commitments, comma)
    requires more[2 * |commitments|] != [] && more[2 * |commitments|][0] == CLOSE
    ensures BeforeByte(more, CLOSE).Some? && EverySecond(BeforeByte(more, CLOSE).value) == commitments
  {
    hide BeforeByte, EverySecond, Items;
    var items, end := Items(commitments, comma), 2 * |commitments|;
    ItemsFree(commitments, comma, CLOSE);
    assert more[..end] == [[]] + items;
    forall k | 0 <= k < end
      ensures CLOSE !in more[k]
    {
      assert more[k] == ([[]] + items)[k];
    }
    BeforeByteAt(more, CLOSE, end);
    ItemsBack(commitments, comma, [], []);
  }

  lemma LastByte(mark: seq<byte>, c: byte)
    requires mark != [] && mark[|mark| - 1] == c && c !in mark[..|mark| - 1]
    ensures Find(mark, c, 0) == Some(|mark| - 1) && mark[|mark|..] == []
  {
    hide Find;
    forall k | 0 <= k < |mark| - 1
      ensures mark[k] != c
    {
      assert mark[k] == mark[..|mark| - 1][k];
    }
    FindsAt(mark, c, 0, |mark| - 1);
  }

  /** Which of the first pieces of a header can be a key. */
  lemma KeysApart(p: Proof, gap: nat)
    requires Written(p)
    ensures var b := Before(p, gap);
            && (forall k :: 0 < k < 5 ==> b[k] != COMMITMENTS) && (forall k :: 0 < k < 7 ==> b[k] != SIGNATURE)
    ensures forall k :: 0 <= k < |p.commitments| ==> p.commitments[k] != SIGNATURE
    ensures [COMMA] + Blanks(gap) != SIGNATURE && ([CLOSE, COMMA] + Blanks(gap)) != SIGNATURE
  {
    assert COMMITMENTS[1] == 111 && SIGNATURE[0] == 115 && CIRCUIT_HASH[0] == 99;
    var b := Before(p, gap);
    assert b[2][0] == COLON && b[4][0] == COMMA && b[6][0] == COLON;
    assert ([COMMA] + Blanks(gap))[0] == COMMA && ([CLOSE, COMMA] + Blanks(gap))[0] == CLOSE;
    HexFree(p.circuitHash, 111);
    HexFree(p.circuitHash, 115);
    CommitmentsFree(p, 115);
  }

  lemma {:induction false} ItemsNot(commitments: seq<seq<byte>>, comma: seq<byte>, key: seq<byte>)
    requires commitments != [] && comma != key && forall k :: 0 <= k < |commitments| ==> commitments[k] != key
    ensures forall k :: 0 <= k < |Items(commitments, comma)| ==> Items(commitments, comma)[k] != key
  {
    if |commitments| > 1 {
      ItemsNot(commitments[1..], comma, key);
    }
  }

  /** A header that is written out is read back, whatever its hexadecimal texts and however many commitments. */
  lemma HeaderReadsBack(p: Proof, gap: nat)
    requires Written(p)
    ensures ReadHeader(Header(p, gap)) == p
  {
    hide Join, GetString, StringArray, PieceValue, PieceArray, Items, AfterKey, Blanks;
    var pieces, comma := HeaderPieces(p, gap), [COMMA] + Blanks(gap);
    var items := Items(p.commitments, comma);
    HeaderFree(p, gap, QUOTE);
    KeysApart(p, gap);
    assert QUOTE !in CIRCUIT_HASH && QUOTE !in SIGNATURE && QUOTE !in COMMITMENTS && OPEN !in COMMITMENTS;
    GetStringExactly(pieces, CIRCUIT_HASH);
    ValueAt(pieces, CIRCUIT_HASH, 1);
    StringArrayExactly(pieces, COMMITMENTS);
    ArrayRead(p, gap);
    GetStringExactly(pieces, SIGNATURE);
    SignatureRead(p, gap);
  }

  lemma ArrayRead(p: Proof, gap: nat)
    requires Written(p)
    ensures PieceArray(HeaderPieces(p, gap), COMMITMENTS) == p.commitments
  {
    hide PieceArray, Items;
    var pieces, comma := HeaderPieces(p, gap), [COMMA] + Blanks(gap);
    KeysApart(p, gap);
    CommitmentsFree(p, CLOSE);
    assert CLOSE !in comma;
    var before := Before(p, gap);
    forall k | 0 < k < 5
      ensures pieces[k] != COMMITMENTS
    {
      assert pieces[k] == before[k];
    }
    var mark, end := pieces[6], 5 + 2 * |p.commitments| + 1;
    assert mark == before[6] && mark[..|mark| - 1] == [COLON] + Blanks(gap);
    assert OPEN !in [COLON] + Blanks(gap);
    assert pieces[7..end] == Items(p.commitments, comma);
    assert pieces[end] == After(p, gap)[0];
    ArrayAt(pieces, COMMITMENTS, 5, p.commitments, comma);
  }

  lemma SignatureRead(p: Proof, gap: nat)
    requires Written(p)
    ensures PieceValue(HeaderPieces(p, gap), SIGNATURE) == p.signature
  {
    hide PieceValue, Items;
    var pieces, comma := HeaderPieces(p, gap), [COMMA] + Blanks(gap);
    var before, items, after := Before(p, gap), Items(p.commitments, comma), After(p, gap);
    var at := 7 + |items| + 1;
    KeysApart(p, gap);
    ItemsNot(p.commitments, comma, SIGNATURE);
    forall k | 0 < k < at
      ensures pieces[k] != SIGNATURE
    {
      assert pieces[k] == if k < 7 then before[k] else if k < 7 + |items| then items[k - 7] else after[0];
    }
    assert pieces[at] == after[1] && pieces[at + 1] == after[2] && pieces[at + 2] == after[3];
    ValueAt(pieces, SIGNATURE, at);
  }
}
