/**
 * The forwarder's proof check and its split of an incoming stream into proof
 * header and ciphertext. Models src/server/forwarder.cpp.
 */
module Forwarder {
  import opened Bytes
  import opened Json
  import opened Network
  import opened ProofHeader
  import opened Wrappers

  const BUFFER: nat := 8192
  const ENOUGH: nat := 4096

  /** HMAC-SHA-256 in hexadecimal, on key and message. */
  type HmacHex = (seq<byte>, seq<byte>) -> HexText

  // ---------------------------------------------------- chunk commitments

  function ChunkSize(len: nat, n: nat): nat
    requires n > 0
  {
    len / n
  }

  lemma ChunksFit(len: nat, n: nat, i: nat)
    requires i < n
    ensures i * ChunkSize(len, n) + ChunkSize(len, n) == (i + 1) * ChunkSize(len, n) <= n * ChunkSize(len, n) <= len
    ensures len - n * ChunkSize(len, n) < n
  {
    var c := len / n;
    assert len == n * c + len % n;
    MulMono(i + 1, n, c);
  }

  lemma MulMono(a: nat, b: nat, c: nat)
    requires a <= b
    ensures a * c <= b * c
  {
    assert b * c == a * c + (b - a) * c;
  }

  /** The bytes commitment `i` of `n` speaks about. */
  function Chunk(ciphertext: seq<byte>, n: nat, i: nat): (c: seq<byte>)
    requires i < n
    ensures |c| == ChunkSize(|ciphertext|, n)
  {
    ChunksFit(|ciphertext|, n, i);
    var size := ChunkSize(|ciphertext|, n);
    ciphertext[i * size..i * size + size]
  }

  lemma ChunkBounds(ciphertext: seq<byte>, n: nat, i: nat)
    requires i < n
    ensures var size, len := |ciphertext| / n, |ciphertext|;
            && i * size <= len
            && ciphertext[i * size..i * size + if size < len - i * size then size else len - i * size]
               == Chunk(ciphertext, n, i)
  {
    ChunksFit(|ciphertext|, n, i);
  }

  /** The commitments of an honest prover who cuts the ciphertext into n chunks. */
  function Commitments(hmac: HmacHex, key: seq<byte>, ciphertext: seq<byte>, n: nat): (c: seq<seq<byte>>)
    ensures |c| == n
  {
    seq(n, i requires 0 <= i < n => hmac(key, Chunk(ciphertext, n, i)))
  }

  /** Good hash and signature, and the commitments of an honest prover, any number of them but none. */
  ghost predicate Accepts(hmac: HmacHex, key: seq<byte>, expectedHash: seq<byte>, ciphertext: seq<byte>, proof: Proof) {
    && proof.circuitHash == expectedHash
    && proof.signature == hmac(key, ciphertext + proof.circuitHash)
    && proof.commitments != []
    && proof.commitments == Commitments(hmac, key, ciphertext, |proof.commitments|)
  }

  class SmtpForwarder {
    const hmac: HmacHex
    const expectedCircuitHash: HexText
    const clusterKey: seq<byte>

    constructor (hmac: HmacHex, circuitHash: HexText, key: seq<byte>)
      ensures this.hmac == hmac && expectedCircuitHash == circuitHash && clusterKey == key
    {
      this.hmac := hmac;
      expectedCircuitHash := circuitHash;
      clusterKey := key;
    }

    method VerifyProof(ciphertext: seq<byte>, circuitHash: seq<byte>, signature: seq<byte>,
                       commitments: seq<seq<byte>>) returns (ok: bool)
      ensures ok <==> Accepts(hmac, clusterKey, expectedCircuitHash, ciphertext,
                              Proof(circuitHash, signature, commitments))
      ensures ok <==>
                && circuitHash == expectedCircuitHash
                && signature == hmac(clusterKey, ciphertext + circuitHash)
                && commitments != []
                && forall i :: 0 <= i < |commitments| ==>
                     commitments[i] == hmac(clusterKey, Chunk(ciphertext, |commitments|, i))
    {
      hide Chunk, ChunkSize;
      if circuitHash != expectedCircuitHash {
        return false;
      }
      if signature == [] || commitments == [] {
        return false;
      }
      if signature != hmac(clusterKey, ciphertext + circuitHash) {
        return false;
      }
      var ctLen := |ciphertext|;
      var chunkSize := ctLen / if |commitments| < 1 then 1 else |commitments|;
      for i := 0 to |commitments|
        invariant forall k :: 0 <= k < i ==>
                    commitments[k] == hmac(clusterKey, Chunk(ciphertext, |commitments|, k))
      {
        ChunkBounds(ciphertext, |commitments|, i);
        var offset := i * chunkSize;
        var len := if chunkSize < ctLen - offset then chunkSize else ctLen - offset;
        if commitments[i] != hmac(clusterKey, ciphertext[offset..offset + len]) {
          assert commitments[i] != Commitments(hmac, clusterKey, ciphertext, |commitments|)[i];
          assert commitments[i] != hmac(clusterKey, Chunk(ciphertext, |commitments|, i));
          return false;
        }
      }
      assert commitments == Commitments(hmac, clusterKey, ciphertext, |commitments|);
      ok := true;
    }
  }

  /** The first `k` chunks, end to end. */
  function Chunks(ciphertext: seq<byte>, n: nat, k: nat): seq<byte>
    requires k <= n
  {
    if k == 0 then [] else Chunks(ciphertext, n, k - 1) + Chunk(ciphertext, n, k - 1)
  }

  lemma {:induction false} ChunksTile(ciphertext: seq<byte>, n: nat, k: nat)
    requires 0 < n && k <= n
    ensures k * ChunkSize(|ciphertext|, n) <= |ciphertext|
    ensures Chunks(ciphertext, n, k) == ciphertext[..k * ChunkSize(|ciphertext|, n)]
    decreases k
  {
    hide ChunkSize;
    if k == 0 {
      assert 0 * ChunkSize(|ciphertext|, n) == 0;
    } else {
      ChunksTile(ciphertext, n, k - 1);
      ChunksFit(|ciphertext|, n, k - 1);
      Adjacent(ciphertext, (k - 1) * ChunkSize(|ciphertext|, n), ChunkSize(|ciphertext|, n));
    }
  }

  lemma Adjacent(s: seq<byte>, at: nat, size: nat)
    requires at + size <= |s|
    ensures s[..at] + s[at..at + size] == s[..at + size]
  {
  }

  /**
   * The chunks follow one another without gap or overlap and cover exactly
   * the first n * (len / n) bytes, so fewer than n bytes are left to the
   * signature alone; nothing is left exactly when n divides the length.
   */
  lemma {:induction false} CommitmentsCover(ciphertext: seq<byte>, n: nat)
    requires 0 < n
    ensures Chunks(ciphertext, n, n) <= ciphertext
    ensures |ciphertext| - |Chunks(ciphertext, n, n)| == |ciphertext| % n < n
    ensures Chunks(ciphertext, n, n) == ciphertext <==> |ciphertext| % n == 0
  {
    ChunksTile(ciphertext, n, n);
    assert |ciphertext| == n * ChunkSize(|ciphertext|, n) + |ciphertext| % n;
  }

  /** No two corresponding chunks of `a` and `b` that differ have the same HMAC. */
  ghost predicate NoCollision(hmac: HmacHex, key: seq<byte>, a: seq<byte>, b: seq<byte>, n: nat) {
    forall i :: 0 <= i < n && hmac(key, Chunk(a, n, i)) == hmac(key, Chunk(b, n, i)) ==> Chunk(a, n, i) == Chunk(b, n, i)
  }

  /**
   * What n commitments say about a ciphertext of known length: short of an
   * HMAC collision, exactly its first n * (len / n) bytes. The rest, fewer
   * than n bytes, is held by the signature alone.
   */
  lemma CommitmentsDetermine(hmac: HmacHex, key: seq<byte>, a: seq<byte>, b: seq<byte>, n: nat)
    requires 0 < n && |a| == |b| && NoCollision(hmac, key, a, b, n)
    ensures Commitments(hmac, key, a, n) == Commitments(hmac, key, b, n)
       <==> a[..|a| - |a| % n] == b[..|a| - |a| % n]
  {
    hide Chunk, Chunks;
    var x, y, covered := Commitments(hmac, key, a, n), Commitments(hmac, key, b, n), |a| - |a| % n;
    if x == y {
      forall i | 0 <= i < n
        ensures Chunk(a, n, i) == Chunk(b, n, i)
      {
        assert x[i] == y[i];
      }
      SameChunks(a, b, n, n);
      CoveredPrefix(a, n);
      CoveredPrefix(b, n);
    }
    if a[..covered] == b[..covered] {
      forall i | 0 <= i < n
        ensures x[i] == y[i]
      {
        ChunkOfPrefix(a, b, n, i);
      }
    }
  }

  lemma {:induction false} SameChunks(a: seq<byte>, b: seq<byte>, n: nat, k: nat)
    requires k <= n && forall i :: 0 <= i < n ==> Chunk(a, n, i) == Chunk(b, n, i)
    ensures Chunks(a, n, k) == Chunks(b, n, k)
    decreases k
  {
    if k > 0 {
      SameChunks(a, b, n, k - 1);
    }
  }

  lemma CoveredPrefix(s: seq<byte>, n: nat)
    requires 0 < n
    ensures Chunks(s, n, n) == s[..|s| - |s| % n]
  {
    ChunksTile(s, n, n);
    assert |s| == n * ChunkSize(|s|, n) + |s| % n;
  }

  lemma ChunkOfPrefix(a: seq<byte>, b: seq<byte>, n: nat, i: nat)
    requires i < n && |a| == |b| && a[..|a| - |a| % n] == b[..|a| - |a| % n]
    ensures Chunk(a, n, i) == Chunk(b, n, i)
  {
    var size, covered := ChunkSize(|a|, n), |a| - |a| % n;
    ChunksFit(|a|, n, i);
    assert |a| == n * size + |a| % n;
    hide ChunkSize;
    SliceOfPrefix(a, covered, i * size, size);
    SliceOfPrefix(b, covered, i * size, size);
  }

  lemma SliceOfPrefix(s: seq<byte>, end: nat, at: nat, size: nat)
    requires at + size <= end <= |s|
    ensures s[at..at + size] == s[..end][at..at + size]
  {
  }

  /**
   * A proof belongs to one ciphertext: presented with another one it is
   * rejected, unless the HMAC collides on the two signed messages.
   */
  lemma TamperedRejected(hmac: HmacHex, key: seq<byte>, expectedHash: seq<byte>, a: seq<byte>, b: seq<byte>, proof: Proof)
    requires a != b && Accepts(hmac, key, expectedHash, a, proof)
    ensures a + expectedHash != b + expectedHash
    ensures hmac(key, a + expectedHash) != hmac(key, b + expectedHash) ==> !Accepts(hmac, key, expectedHash, b, proof)
  {
    hide Commitments;
    SuffixCancels(a, b, expectedHash);
  }

  lemma SuffixCancels(a: seq<byte>, b: seq<byte>, t: seq<byte>)
    ensures a + t == b + t ==> a == b
  {
    if a + t == b + t {
      assert |a| == |b|;
      assert a == (a + t)[..|a|] && b == (b + t)[..|b|];
    }
  }

  // ------------------------------------------------------- reassembly

  predicate BlankAt(s: seq<byte>, i: nat) {
    i + 1 < |s| && s[i] == LF && s[i + 1] == LF
  }

  /** Where the first empty line begins. */
  function FindBlank(s: seq<byte>, from: nat): (r: Option<nat>)
    ensures r.Some? ==> from <= r.value && BlankAt(s, r.value) && forall k :: from <= k < r.value ==> !BlankAt(s, k)
    ensures r == None ==> forall k :: from <= k < |s| ==> !BlankAt(s, k)
    decreases |s| - from
  {
    if from + 1 >= |s| then None else if BlankAt(s, from) then Some(from) else FindBlank(s, from + 1)
  }

  datatype Split = Split(header: seq<byte>, ciphertext: seq<byte>)

  /** The first loop: fills the buffer until it holds an empty line. */
  function Gather(buf: seq<byte>, pending: seq<byte>, sizes: seq<nat>): Option<(seq<byte>, seq<byte>, seq<nat>)>
    decreases |pending|
  {
    if |buf| >= BUFFER - 1 then None
    else
      var n := Delivered(pending, sizes, BUFFER - |buf|);
      if n == 0 then None
      else
        var more := buf + pending[..n];
        if FindBlank(more, 0).Some? then Some((more, pending[n..], Later(sizes)))
        else Gather(more, pending[n..], Later(sizes))
  }

  /** The second loop: reads on until at least 4096 bytes are there. */
  function Collect(text: seq<byte>, pending: seq<byte>, sizes: seq<nat>): seq<byte>
    decreases |pending|
  {
    if |text| >= ENOUGH then text
    else
      var n := Delivered(pending, sizes, BUFFER);
      if n == 0 then text else Collect(text + pending[..n], pending[n..], Later(sizes))
  }

  function Reassembled(stream: seq<byte>, sizes: seq<nat>): Option<Split> {
    match Gather([], stream, sizes)
    case None => None
    case Some((buf, pending, later)) =>
      match FindBlank(buf, 0)
      case None => None
      case Some(h) => Some(Split(buf[..h], Collect(buf[h + 2..], pending, later)))
  }

  method Reassemble(socket: Socket) returns (r: Option<Split>)
    modifies socket
    ensures r == Reassembled(old(socket.pending), old(socket.sizes))
  {
    var buf: seq<byte> := [];
    var headerEnd: Option<nat> := None;
    ghost var stream, cuts := socket.pending, socket.sizes;
    while |buf| < BUFFER - 1
      invariant headerEnd == None
      invariant Gather([], stream, cuts) == Gather(buf, socket.pending, socket.sizes)
      decreases |socket.pending|
    {
      var chunk := socket.Recv(BUFFER - |buf|);
      if |chunk| == 0 {
        break;
      }
      buf := buf + chunk;
      headerEnd := FindBlank(buf, 0);
      if headerEnd.Some? {
        break;
      }
    }
    if headerEnd == None {
      return None;
    }
    var header := buf[..headerEnd.value];
    var ciphertext := buf[headerEnd.value + 2..];
    ghost var rest, later := socket.pending, socket.sizes;
    while |ciphertext| < ENOUGH
      invariant Collect(buf[headerEnd.value + 2..], rest, later) == Collect(ciphertext, socket.pending, socket.sizes)
      decreases |socket.pending|
    {
      var chunk := socket.Recv(BUFFER);
      if |chunk| == 0 {
        break;
      }
      ciphertext := ciphertext + chunk;
    }
    r := Some(Split(header, ciphertext));
  }

  // ------------------------------------- when the cuts make no difference

  lemma {:induction false} FindBlankIs(s: seq<byte>, from: nat, h: nat)
    requires from <= h && BlankAt(s, h) && forall k :: from <= k < h ==> !BlankAt(s, k)
    ensures FindBlank(s, from) == Some(h)
    decreases h - from
  {
    if from < h {
      FindBlankIs(s, from + 1, h);
    }
  }

  /** A prefix has its first empty line where the stream has, or none yet. */
  lemma PrefixBlank(s: seq<byte>, n: nat)
    requires n <= |s|
    ensures FindBlank(s[..n], 0)
         == match FindBlank(s, 0) case Some(h) => (if h + 2 <= n then Some(h) else None) case None => None
  {
    var p := s[..n];
    assert forall k: nat :: BlankAt(p, k) <==> BlankAt(s, k) && k + 2 <= n;
    assert FindBlank(p, 0).Some? ==> BlankAt(s, FindBlank(p, 0).value);
    match FindBlank(s, 0) {
      case Some(h) =>
        if h + 2 <= n {
          FindBlankIs(p, 0, h);
        }
      case None =>
    }
  }

  lemma Advance(s: seq<byte>, at: nat, n: nat)
    requires at + n <= |s|
    ensures s[..at] + s[at..][..n] == s[..at + n] && s[at..][n..] == s[at + n..]
  {
  }

  /** A stream without an empty line in its first 8192 bytes is rejected, however it arrives. */
  lemma {:induction false} NoHeader(s: seq<byte>, at: nat, sizes: seq<nat>)
    requires at <= |s| && at <= BUFFER
    requires FindBlank(s, 0) == None || FindBlank(s, 0).value + 2 > BUFFER
    ensures Gather(s[..at], s[at..], sizes) == None
    decreases |s| - at
  {
    if at < BUFFER - 1 {
      var n := Delivered(s[at..], sizes, BUFFER - at);
      if n > 0 {
        Advance(s, at, n);
        PrefixBlank(s, at + n);
        NoHeader(s, at + n, Later(sizes));
      }
    }
  }

  /** An empty line that ends before the last buffer byte is found, however it arrives. */
  lemma {:induction false} HeaderFound(s: seq<byte>, at: nat, sizes: seq<nat>, h: nat) returns (end: nat, later: seq<nat>)
    requires FindBlank(s, 0) == Some(h) && h + 2 <= BUFFER - 1 && at < h + 2
    ensures h + 2 <= end <= |s|
    ensures Gather(s[..at], s[at..], sizes) == Some((s[..end], s[end..], later))
    decreases |s| - at
  {
    hide FindBlank, Delivered, Later;
    var n := Delivered(s[at..], sizes, BUFFER - at);
    Advance(s, at, n);
    PrefixBlank(s, at + n);
    if h + 2 <= at + n {
      end, later := at + n, Later(sizes);
    } else {
      end, later := HeaderFound(s, at + n, Later(sizes), h);
    }
  }

  /** At most 4096 bytes up to the close are all collected, however they arrive. */
  lemma {:induction false} CollectsAll(s: seq<byte>, at: nat, sizes: seq<nat>)
    requires at <= |s| <= ENOUGH
    ensures Collect(s[..at], s[at..], sizes) == s
    decreases |s| - at
  {
    if at == |s| {
      assert s[..at] == s && s[at..] == [];
    } else {
      var n := Delivered(s[at..], sizes, BUFFER);
      Advance(s, at, n);
      CollectsAll(s, at + n, Later(sizes));
    }
  }

  /** What the second loop makes of a gathered buffer. */
  lemma AfterGather(s: seq<byte>, sizes: seq<nat>, h: nat, end: nat, later: seq<nat>)
    requires FindBlank(s, 0) == Some(h) && h + 2 <= end <= |s|
    requires Gather([], s, sizes) == Some((s[..end], s[end..], later))
    ensures Reassembled(s, sizes) == Some(Split(s[..h], Collect(s[h + 2..end], s[end..], later)))
  {
    hide Gather, Collect, FindBlank;
    PrefixBlank(s, end);
    assert s[..end][..h] == s[..h] && s[..end][h + 2..] == s[h + 2..end];
  }

  lemma SplitExactly(s: seq<byte>, sizes: seq<nat>, h: nat)
    requires FindBlank(s, 0) == Some(h) && h + 2 <= BUFFER - 1 && |s| - (h + 2) <= ENOUGH
    ensures Reassembled(s, sizes) == Some(Split(s[..h], s[h + 2..]))
  {
    hide Gather, Collect, FindBlank, Reassembled;
    assert s[..0] == [] && s[0..] == s;
    var end, later := HeaderFound(s, 0, sizes, h);
    AfterGather(s, sizes, h, end, later);
    var body, have := s[h + 2..], end - (h + 2);
    assert s[h + 2..end] == body[..have] && s[end..] == body[have..];
    CollectsAll(body, have, later);
  }

  /** A first read of `n` bytes. */
  lemma {:induction false} GatherFirst(s: seq<byte>, sizes: seq<nat>, n: nat)
    requires 0 < n == Delivered(s, sizes, BUFFER)
    ensures Gather([], s, sizes) == if FindBlank(s[..n], 0).Some? then Some((s[..n], s[n..], Later(sizes)))
                                    else Gather(s[..n], s[n..], Later(sizes))
  {
    assert [] + s[..n] == s[..n];
  }

  /** The header ends with the buffer's last byte: seen in one read, missed when 8191 bytes come first. */
  lemma HeaderAtTheEdge(s: seq<byte>, h: nat)
    requires FindBlank(s, 0) == Some(h) && h + 2 == BUFFER
    ensures Reassembled(s, []).Some? && Reassembled(s, [BUFFER - 1]) == None
  {
    hide FindBlank;
    PrefixBlank(s, BUFFER);
    PrefixBlank(s, BUFFER - 1);
    GatherFirst(s, [], BUFFER);
    AfterGather(s, [], h, BUFFER, []);
    GatherFirst(s, [BUFFER - 1], BUFFER - 1);
    assert |s[..BUFFER - 1]| == BUFFER - 1;
    assert Gather([], s, [BUFFER - 1]) == None;
  }

  /** More than 4096 bytes follow: the loop may stop at 4096 or overshoot. */
  lemma LongBody(s: seq<byte>, h: nat)
    requires FindBlank(s, 0) == Some(h) && h + 2 <= BUFFER - 1 && |s| - (h + 2) > ENOUGH
    ensures Reassembled(s, [h + 2, ENOUGH]) != Reassembled(s, [h + 2, ENOUGH + 1])
  {
    hide Reassembled, FindBlank;
    CutAtHeader(s, h, ENOUGH);
    CutAtHeader(s, h, ENOUGH + 1);
    assert |s[h + 2..h + 2 + ENOUGH]| != |s[h + 2..h + 2 + (ENOUGH + 1)]|;
  }

  lemma TwoCuts(s: seq<byte>, m: nat, n: nat)
    requires 0 < m <= BUFFER && 0 < n <= BUFFER && m + n <= |s|
    ensures Later([m, n]) == [n] && Delivered(s, [m, n], BUFFER) == m && Delivered(s[m..], [n], BUFFER) == n
  {
  }

  lemma CutAtHeader(s: seq<byte>, h: nat, n: nat)
    requires FindBlank(s, 0) == Some(h) && h + 2 <= BUFFER - 1 && ENOUGH <= n <= ENOUGH + 1
    requires |s| - (h + 2) >= n
    ensures Reassembled(s, [h + 2, n]) == Some(Split(s[..h], s[h + 2..h + 2 + n]))
  {
    hide FindBlank, Gather, Collect, Delivered, Later, Reassembled;
    var cuts, rest := [h + 2, n], s[h + 2..];
    TwoCuts(s, h + 2, n);
    PrefixBlank(s, h + 2);
    GatherFirst(s, cuts, h + 2);
    AfterGather(s, cuts, h, h + 2, [n]);
    assert s[h + 2..h + 2] == [];
    CollectFirst(rest, [n], n);
    assert rest[..n] == s[h + 2..h + 2 + n];
  }

  lemma CollectFirst(rest: seq<byte>, sizes: seq<nat>, n: nat)
    requires ENOUGH <= n == Delivered(rest, sizes, BUFFER)
    ensures Collect([], rest, sizes) == rest[..n]
  {
    assert [] + rest[..n] == rest[..n];
    assert Collect(rest[..n], rest[n..], Later(sizes)) == rest[..n];
  }

  /**
   * The split does not depend on how the network cuts the stream exactly when
   * there is no empty line within the first 8192 bytes, or the first one ends
   * within 8191 bytes and at most 4096 bytes follow it.
   */
  lemma {:induction false} CutsIrrelevantExactly(s: seq<byte>)
    ensures (forall a: seq<nat>, b: seq<nat> :: Reassembled(s, a) == Reassembled(s, b))
       <==> match FindBlank(s, 0)
            case None => true
            case Some(h) => h + 2 > 8192 || (h + 2 <= 8191 && |s| - (h + 2) <= 4096)
  {
    hide FindBlank, Reassembled;
    match FindBlank(s, 0) {
      case Some(h) =>
        if h + 2 == BUFFER {
          HeaderAtTheEdge(s, h);
        } else if h + 2 < BUFFER {
          if |s| - (h + 2) <= ENOUGH {
            forall a: seq<nat>
              ensures Reassembled(s, a) == Some(Split(s[..h], s[h + 2..]))
            {
              SplitExactly(s, a, h);
            }
          } else {
            LongBody(s, h);
          }
        } else {
          AlwaysRejected(s);
        }
      case None => AlwaysRejected(s);
    }
  }

  lemma AlwaysRejected(s: seq<byte>)
    requires FindBlank(s, 0) == None || FindBlank(s, 0).value + 2 > BUFFER
    ensures forall a: seq<nat> :: Reassembled(s, a) == None
  {
    forall a: seq<nat>
      ensures Reassembled(s, a) == None
    {
      assert s[..0] == [] && s[0..] == s;
      NoHeader(s, 0, a);
    }
  }

  // --------------------------------------------------------- one connection

  ghost function Forwarded(f: SmtpForwarder, stream: seq<byte>, sizes: seq<nat>): Option<seq<byte>> {
    match Reassembled(stream, sizes)
    case None => None
    case Some(Split(header, ciphertext)) =>
      if Accepts(f.hmac, f.clusterKey, f.expectedCircuitHash, ciphertext, ReadHeader(header)) then Some(ciphertext)
      else None
  }

  /** The ciphertext passed on to the mail server, if any. */
  method HandleClient(f: SmtpForwarder, socket: Socket) returns (forwarded: Option<seq<byte>>)
    modifies socket
    ensures forwarded == Forwarded(f, old(socket.pending), old(socket.sizes))
  {
    hide GetString, StringArray, Reassembled;
    var split := Reassemble(socket);
    if split == None {
      return None;
    }
    var header := split.value.header;
    var circuitHash := GetString(header, CIRCUIT_HASH);
    var signature := GetString(header, SIGNATURE);
    var commitments := GetStringArray(header, COMMITMENTS);
    var ok := f.VerifyProof(split.value.ciphertext, circuitHash, signature, commitments);
    forwarded := if ok then Some(split.value.ciphertext) else None;
  }

  lemma BlankAfterHeader(header: seq<byte>, rest: seq<byte>)
    requires FindBlank(header, 0) == None && (header == [] || header[|header| - 1] != LF)
    ensures FindBlank(header + [LF, LF] + rest, 0) == Some(|header|)
  {
    var s := header + [LF, LF] + rest;
    forall k: nat | k < |header|
      ensures !BlankAt(s, k)
    {
      assert !BlankAt(header, k);
      assert s[k] == header[k] && (k + 1 < |header| ==> s[k + 1] == header[k + 1]);
    }
    FindBlankIs(s, 0, |header|);
  }

  lemma {:induction false} NoBlank(s: seq<byte>, from: nat)
    requires LF !in s
    ensures FindBlank(s, from) == None
    decreases |s| - from
  {
    if from + 1 < |s| {
      NoBlank(s, from + 1);
    }
  }

  /** What an honest prover puts into the header. */
  function HonestProof(hmac: HmacHex, key: seq<byte>, circuitHash: HexText, ciphertext: seq<byte>, n: nat): Proof {
    Proof(circuitHash, hmac(key, ciphertext + circuitHash), Commitments(hmac, key, ciphertext, n))
  }

  lemma HonestWritten(hmac: HmacHex, key: seq<byte>, circuitHash: HexText, ciphertext: seq<byte>, n: nat)
    requires n > 0
    ensures Written(HonestProof(hmac, key, circuitHash, ciphertext, n))
  {
    hide IsHex, Chunk;
    var signature: HexText := hmac(key, ciphertext + circuitHash);
    var commitments := Commitments(hmac, key, ciphertext, n);
    forall i | 0 <= i < n
      ensures IsHex(commitments[i])
    {
      var commitment: HexText := hmac(key, Chunk(ciphertext, n, i));
      assert commitments[i] == commitment;
    }
  }

  /**
   * From one end to the other: a written header with an honest proof of any
   * number of chunks, an empty line and at most 4096 bytes of ciphertext are
   * accepted, and exactly that ciphertext is forwarded, however the network
   * cuts the stream.
   */
  lemma HonestStreamForwarded(f: SmtpForwarder, ciphertext: seq<byte>, n: nat, gap: nat, sizes: seq<nat>)
    requires n > 0 && |ciphertext| <= ENOUGH
    requires |Header(HonestProof(f.hmac, f.clusterKey, f.expectedCircuitHash, ciphertext, n), gap)| + 2 <= BUFFER - 1
    ensures var header := Header(HonestProof(f.hmac, f.clusterKey, f.expectedCircuitHash, ciphertext, n), gap);
            Forwarded(f, header + [LF, LF] + ciphertext, sizes) == Some(ciphertext)
  {
    hide FindBlank, Reassembled, Header, Commitments, ReadHeader, Written;
    var proof := HonestProof(f.hmac, f.clusterKey, f.expectedCircuitHash, ciphertext, n);
    var header := Header(proof, gap);
    var s := header + [LF, LF] + ciphertext;
    HonestWritten(f.hmac, f.clusterKey, f.expectedCircuitHash, ciphertext, n);
    HeaderReadsBack(proof, gap);
    HeaderHasNoNewline(proof, gap);
    NoBlank(header, 0);
    BlankAfterHeader(header, ciphertext);
    SplitExactly(s, sizes, |header|);
    assert s[..|header|] == header && s[|header| + 2..] == ciphertext;
  }

  lemma HeaderHasNoNewline(p: Proof, gap: nat)
    requires Written(p)
    ensures LF !in Header(p, gap)
  {
    hide HeaderPieces, Join;
    HeaderFree(p, gap, LF);
    JoinFree(HeaderPieces(p, gap), LF);
  }
}
