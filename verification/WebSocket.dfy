/**
 * WebSocket frames (RFC 6455, section 5.2): the writer of text frames and the
 * reader that skips over them. Models src/server/discovery.cpp.
 */
module WebSocket {
  import opened Bytes
  import opened Network
  import opened Wrappers

  const SIZE_LIMIT: nat := 0x1_0000_0000_0000_0000

  function LengthField(len: nat): (f: seq<byte>)
    ensures |f| > 0
  {
    if len < 126 then [len]
    else if len < 65536 then [126] + ToBigEndian(len, 2)
    else [127] + ToBigEndian(len, 8)
  }

  /** An unmasked text frame with the FIN bit set. */
  function Frame(text: seq<byte>): seq<byte> {
    [0x81] + LengthField(|text|) + text
  }

  method SendWsText(text: seq<byte>) returns (frame: seq<byte>)
    requires |text| < SIZE_LIMIT
    ensures frame == Frame(text)
  {
    hide ToBigEndian, Pow;
    var len := |text|;
    frame := [0x81];
    if len < 126 {
      frame := frame + [len];
    } else if len < 65536 {
      frame := frame + [126];
      frame := frame + [(len / 0x100) % 0x100];
      frame := frame + [len % 0x100];
      TwoDigits(len);
    } else {
      frame := frame + [127];
      ghost var spelled := ToBigEndian(len, 8);
      var i := 7;
      while i >= 0
        invariant -1 <= i <= 7
        invariant frame == [0x81, 127] + spelled[..7 - i]
      {
        ToBigEndianDigit(len, 8, 7 - i);
        frame := frame + [(len / Pow(256, i)) % 256];
        i := i - 1;
      }
      assert spelled[..8] == spelled;
    }
    frame := frame + text;
  }

  datatype Head = Head(size: nat, length: nat)

  /** Size and payload length of the frame head at the front; nothing at a close frame or when bytes are missing. */
  function ReadHead(s: seq<byte>): (r: Option<Head>)
    ensures r.Some? ==> 2 <= r.value.size <= |s|
  {
    if |s| < 2 || s[0] % 16 == 8 then None
    else
      var extra := if s[1] % 128 == 126 then 2 else if s[1] % 128 == 127 then 8 else 0;
      var mask := if s[1] >= 128 then 4 else 0;
      if |s| < 2 + extra + mask then None
      else Some(Head(2 + extra + mask, if extra == 0 then s[1] % 128 else FromBigEndian(s[2..2 + extra])))
  }

  /** The payloads the reader passes over, as far as they arrive, and what it leaves unread. */
  function ReadFrames(s: seq<byte>): (r: (seq<seq<byte>>, seq<byte>))
    decreases |s|
  {
    match ReadHead(s)
    case None => ([], s)
    case Some(h) =>
      var end := if h.size + h.length < |s| then h.size + h.length else |s|;
      var (payloads, rest) := ReadFrames(s[end..]);
      ([s[h.size..end]] + payloads, rest)
  }

  /** The C++ code asks `recv` for a length cast to a signed 32-bit integer. */
  const INT_LIMIT: nat := 0x8000_0000

  /** Every length the frames of a stream declare fits that integer. */
  ghost predicate LengthsFit(s: seq<byte>)
    decreases |s|
  {
    match ReadHead(s)
    case None => true
    case Some(h) => h.length < INT_LIMIT && (h.size + h.length < |s| ==> LengthsFit(s[h.size + h.length..]))
  }

  method ReadLoop(socket: Socket) returns (payloads: seq<seq<byte>>)
    requires LengthsFit(socket.pending)
    modifies socket
    ensures payloads == ReadFrames(old(socket.pending)).0
  {
    hide ReadFrames, ReadHead, FromBigEndian, LengthsFit;
    payloads := [];
    ghost var stream := socket.pending;
    while true
      invariant LengthsFit(socket.pending)
      invariant payloads + ReadFrames(socket.pending).0 == ReadFrames(stream).0
      decreases |socket.pending|
    {
      ghost var s := socket.pending;
      NoFrame(s);
      var head := RecvHead(socket);
      if head == None {
        return;
      }
      var length := head.value.length;
      var payload: seq<byte> := [];
      while |payload| < length
        invariant |payload| <= length
        invariant payload + socket.pending == s[head.value.size..]
        decreases length - |payload|
      {
        ghost var had := payload;
        var more := socket.Recv(length - |payload|);
        if |more| == 0 {
          break;
        }
        payload := payload + more;
        assert payload + socket.pending == had + (more + socket.pending);
      }
      FrameStep(s, head.value, payload, socket.pending);
      FitStep(s, head.value, payload, socket.pending);
      Associate(payloads, payload, ReadFrames(socket.pending).0);
      payloads := payloads + [payload];
    }
  }

  /** Reads up to the payload; gives up at a close frame or when the stream ends first. */
  method RecvHead(socket: Socket) returns (r: Option<Head>)
    modifies socket
    ensures r == ReadHead(old(socket.pending))
    ensures r.Some? ==> socket.pending == old(socket.pending)[r.value.size..]
  {
    hide FromBigEndian;
    ghost var s := socket.pending;
    var head := socket.RecvFull(2);
    if |head| < 2 {
      return None;
    }
    assert socket.pending == s[2..] && head == s[..2];
    var opcode := head[0] % 16;
    if opcode == 8 {
      return None;
    }
    var masked := head[1] >= 128;
    var length: nat := head[1] % 128;
    var size := 2;
    if length == 126 {
      var ext := socket.RecvFull(2);
      if |ext| != 2 {
        return None;
      }
      WordSpelled(ext[0], ext[1]);
      assert ext == [ext[0], ext[1]];
      length := Word(ext[0], ext[1]);
      size := 4;
      Cut(s, 2, ext, socket.pending);
    } else if length == 127 {
      var ext := socket.RecvFull(8);
      if |ext| != 8 {
        return None;
      }
      length := EightByteLength(ext);
      size := 10;
      Cut(s, 2, ext, socket.pending);
    }
    if masked {
      var mask := socket.RecvFull(4);
      if |mask| != 4 {
        return None;
      }
      Cut(s, size, mask, socket.pending);
      size := size + 4;
    }
    r := Some(Head(size, length));
  }

  lemma Cut(s: seq<byte>, at: nat, piece: seq<byte>, rest: seq<byte>)
    requires at <= |s| && piece + rest == s[at..]
    ensures at + |piece| <= |s| && piece == s[at..at + |piece|] && rest == s[at + |piece|..]
  {
    assert s[at..][..|piece|] == piece && s[at..][|piece|..] == rest;
  }

  /** The loop that shifts in the eight bytes of a long length. */
  method EightByteLength(ext: seq<byte>) returns (length: nat)
    requires |ext| == 8
    ensures length == FromBigEndian(ext)
  {
    length := 0;
    for i := 0 to 8
      invariant length == FromBigEndian(ext[..i])
    {
      assert ext[..i + 1][..i] == ext[..i];
      length := length * 256 + ext[i];
    }
    assert ext[..8] == ext;
  }

  lemma NoFrame(s: seq<byte>)
    ensures ReadHead(s) == None ==> ReadFrames(s).0 == []
  {
  }

  /** The payload ends where its length says, or with the stream. */
  lemma FrameStep(s: seq<byte>, h: Head, payload: seq<byte>, rest: seq<byte>)
    requires ReadHead(s) == Some(h) && payload + rest == s[h.size..]
    requires |payload| <= h.length && (|payload| == h.length || rest == [])
    ensures ReadFrames(s).0 == [payload] + ReadFrames(rest).0
  {
    hide ReadHead;
    var end := h.size + |payload|;
    assert s[h.size..end] == payload && s[end..] == rest;
  }

  lemma FitStep(s: seq<byte>, h: Head, payload: seq<byte>, rest: seq<byte>)
    requires ReadHead(s) == Some(h) && payload + rest == s[h.size..] && LengthsFit(s)
    requires |payload| <= h.length && (|payload| == h.length || rest == [])
    ensures h.length < INT_LIMIT && LengthsFit(rest)
  {
    if rest != [] {
      hide ReadHead;
      assert s[h.size + |payload|..] == rest;
    }
  }

  lemma Associate(a: seq<seq<byte>>, x: seq<byte>, b: seq<seq<byte>>)
    ensures a + ([x] + b) == (a + [x]) + b
  {
  }

  // --------------------------------------------------- frames of any client

  type Mask = s: seq<byte> | |s| == 4 witness Zeros(4)

  /** The three ways to write a length; a sender may take any that holds it. */
  datatype LengthForm = InByte | InTwo | InEight

  predicate Holds(form: LengthForm, len: nat) {
    match form
    case InByte => len < 126
    case InTwo => len < 65536
    case InEight => len < SIZE_LIMIT
  }

  /** A frame as a sender lays it out; `first` holds the flags and the opcode, the payload is what goes over the wire. */
  datatype WireFrame = WireFrame(first: byte, mask: Option<Mask>, form: LengthForm, payload: seq<byte>)

  const CLOSE_OPCODE: byte := 8

  predicate IsClose(f: WireFrame) {
    f.first % 16 == CLOSE_OPCODE
  }

  /** The length's mark and what follows it. */
  function LengthMark(form: LengthForm, len: nat): (m: (byte, seq<byte>))
    requires Holds(form, len)
    ensures m.0 < 128
  {
    match form
    case InByte => (len, [])
    case InTwo => (126, ToBigEndian(len, 2))
    case InEight => (127, ToBigEndian(len, 8))
  }

  function WireHead(f: WireFrame): (h: seq<byte>)
    requires Holds(f.form, |f.payload|)
    ensures |h| >= 2 && h[0] == f.first
  {
    var (mark, more) := LengthMark(f.form, |f.payload|);
    match f.mask
    case None => [f.first, mark] + more
    case Some(mask) => [f.first, mark + 128] + more + mask
  }

  function Wire(f: WireFrame): seq<byte>
    requires Holds(f.form, |f.payload|)
  {
    WireHead(f) + f.payload
  }

  ghost predicate AllHold(frames: seq<WireFrame>) {
    forall i :: 0 <= i < |frames| ==> Holds(frames[i].form, |frames[i].payload|)
  }

  /** Frames sent one after the other. */
  function WireAll(frames: seq<WireFrame>): seq<byte>
    requires AllHold(frames)
  {
    if frames == [] then [] else Wire(frames[0]) + WireAll(frames[1..])
  }

  /** The frames before the first close frame. */
  function BeforeClose(frames: seq<WireFrame>): (b: seq<WireFrame>)
    ensures b <= frames
  {
    if frames == [] || IsClose(frames[0]) then [] else [frames[0]] + BeforeClose(frames[1..])
  }

  function Payloads(frames: seq<WireFrame>): (p: seq<seq<byte>>)
    ensures |p| == |frames|
  {
    seq(|frames|, i requires 0 <= i < |frames| => frames[i].payload)
  }

  /** The mark tells the form, and the form the length. */
  lemma MarkReads(form: LengthForm, len: nat)
    requires Holds(form, len)
    ensures var (mark, more) := LengthMark(form, len);
            && |more| == (if mark == 126 then 2 else if mark == 127 then 8 else 0)
            && len == if mark < 126 then mark else FromBigEndian(more)
  {
    if form != InByte {
      assert Pow(256, 2) == 65536 && Pow(256, 8) == SIZE_LIMIT;
      IntegerRoundTrip(len, if form == InTwo then 2 else 8);
    }
  }

  /** What stands where in a frame head. */
  lemma HeadParts(f: WireFrame)
    requires Holds(f.form, |f.payload|)
    ensures var (h, m) := (WireHead(f), LengthMark(f.form, |f.payload|));
            && |h| == 2 + |m.1| + (if f.mask == None then 0 else 4)
            && h[0] == f.first && h[1] == m.0 + (if f.mask == None then 0 else 128)
            && h[2..2 + |m.1|] == m.1
  {
    hide LengthMark, Holds;
  }

  lemma HeadOfWire(f: WireFrame, more: seq<byte>)
    requires Holds(f.form, |f.payload|)
    ensures ReadHead(Wire(f) + more) == if IsClose(f) then None else Some(Head(|WireHead(f)|, |f.payload|))
  {
    hide LengthMark, FromBigEndian, Holds, WireHead;
    var m := LengthMark(f.form, |f.payload|);
    MarkReads(f.form, |f.payload|);
    HeadParts(f);
    assert Wire(f) + more == WireHead(f) + (f.payload + more);
    HeadReads(WireHead(f), f.payload + more, m.1, m.0, f.mask.Some?);
  }

  lemma HeadReads(h: seq<byte>, more: seq<byte>, field: seq<byte>, mark: byte, masked: bool)
    requires mark < 128 && |field| == (if mark == 126 then 2 else if mark == 127 then 8 else 0)
    requires |h| == 2 + |field| + (if masked then 4 else 0) && h[1] == mark + (if masked then 128 else 0)
    requires h[2..2 + |field|] == field
    ensures ReadHead(h + more)
         == if h[0] % 16 == CLOSE_OPCODE then None else Some(Head(|h|, if mark < 126 then mark else FromBigEndian(field)))
  {
    hide FromBigEndian;
    var s := h + more;
    assert s[0] == h[0] && s[1] == h[1] && s[2..2 + |field|] == h[2..2 + |field|];
  }

  /** One frame that is no close frame is passed over whole. */
  lemma WireStep(f: WireFrame, more: seq<byte>)
    requires Holds(f.form, |f.payload|) && !IsClose(f)
    ensures ReadFrames(Wire(f) + more) == ([f.payload] + ReadFrames(more).0, ReadFrames(more).1)
    ensures |f.payload| < INT_LIMIT && LengthsFit(more) ==> LengthsFit(Wire(f) + more)
  {
    hide WireHead, ReadHead, Holds;
    var s, at, end := Wire(f) + more, |WireHead(f)|, |Wire(f)|;
    HeadOfWire(f, more);
    assert s == WireHead(f) + (f.payload + more);
    assert s[at..end] == f.payload && s[end..] == more;
  }

  /**
   * Any frames, masked or not, of any opcodes and with their lengths in any
   * form: the reader passes over exactly the payloads before the first close
   * frame, with their boundaries, and stops there.
   */
  lemma {:induction false} AnyFramesRead(frames: seq<WireFrame>)
    requires AllHold(frames)
    ensures AllHold(frames[|BeforeClose(frames)|..])
    ensures ReadFrames(WireAll(frames)) == (Payloads(BeforeClose(frames)), WireAll(frames[|BeforeClose(frames)|..]))
    ensures (forall i :: 0 <= i < |frames| ==> |frames[i].payload| < INT_LIMIT) ==> LengthsFit(WireAll(frames))
  {
    hide Wire, Holds, ReadHead, Payloads;
    if frames == [] {
      NoHead();
    } else if IsClose(frames[0]) {
      HeadOfWire(frames[0], WireAll(frames[1..]));
    } else {
      var first, rest := frames[0], frames[1..];
      AnyFramesRead(rest);
      WireStep(first, WireAll(rest));
      var before := BeforeClose(rest);
      assert frames[1 + |before|..] == rest[|before|..];
      PayloadsOf(first, before);
    }
  }

  lemma PayloadsOf(first: WireFrame, rest: seq<WireFrame>)
    ensures Payloads([first] + rest) == [first.payload] + Payloads(rest)
  {
  }

  lemma NoHead()
    ensures ReadHead([]) == None
  {
  }

  /**
   * A frame that the stream cuts off: inside its head it is not read at all,
   * inside its payload the reader passes over what has come, and stops.
   */
  lemma CutOffFrame(f: WireFrame, k: nat)
    requires Holds(f.form, |f.payload|) && !IsClose(f) && k < |Wire(f)|
    ensures ReadFrames(Wire(f)[..k])
         == if k < |WireHead(f)| then ([], Wire(f)[..k]) else ([f.payload[..k - |WireHead(f)|]], [])
  {
    hide LengthMark, FromBigEndian, Holds, WireHead;
    var m, h, s := LengthMark(f.form, |f.payload|), WireHead(f), Wire(f)[..k];
    MarkReads(f.form, |f.payload|);
    HeadParts(f);
    if k < |h| {
      assert s == h[..k];
      HeadCutOff(h, m.1, m.0, f.mask.Some?, k);
    } else {
      var got := f.payload[..k - |h|];
      assert s == h + got && s[|h|..] == got;
      HeadReads(h, got, m.1, m.0, f.mask.Some?);
      LastFrame(s, |h|, |f.payload|);
    }
  }

  /** A frame whose payload the stream does not hold in full is the last one. */
  lemma LastFrame(s: seq<byte>, size: nat, length: nat)
    requires ReadHead(s) == Some(Head(size, length)) && size + length >= |s|
    ensures ReadFrames(s) == ([s[size..]], [])
  {
    hide ReadHead;
    NoHead();
    assert s[|s|..] == [] && s[size..|s|] == s[size..];
    assert ReadFrames([]) == ([], []);
    assert [s[size..]] + ReadFrames([]).0 == [s[size..]];
  }

  lemma HeadCutOff(h: seq<byte>, field: seq<byte>, mark: byte, masked: bool, k: nat)
    requires mark < 128 && |field| == (if mark == 126 then 2 else if mark == 127 then 8 else 0)
    requires |h| == 2 + |field| + (if masked then 4 else 0) && h[1] == mark + (if masked then 128 else 0)
    requires k < |h|
    ensures ReadHead(h[..k]) == None
  {
    assert k >= 2 ==> h[..k][1] == h[1];
  }

  // ------------------------------------------------------- the server's own

  /** The frames of some texts, sent one after the other. */
  function Frames(texts: seq<seq<byte>>): seq<byte> {
    if texts == [] then [] else Frame(texts[0]) + Frames(texts[1..])
  }

  function ShortestForm(len: nat): LengthForm {
    if len < 126 then InByte else if len < 65536 then InTwo else InEight
  }

  /** A single unmasked frame of a text, FIN set, the reserved bits clear, opcode 1, its length in the shortest form that holds it. */
  lemma FrameIsText(text: seq<byte>)
    requires |text| < SIZE_LIMIT
    ensures var f := WireFrame(0x81, None, ShortestForm(|text|), text);
            Holds(f.form, |text|) && Frame(text) == Wire(f)
    ensures Frame(text)[0] / 128 == 1 && Frame(text)[0] / 16 % 8 == 0 && Frame(text)[0] % 16 == 1
  {
  }

  /**
   * Reading the frames of any texts that fit a `send` gives the texts back,
   * each with its own boundaries, and leaves no byte over.
   */
  lemma {:induction false} FramesRoundTrip(texts: seq<seq<byte>>)
    requires forall i :: 0 <= i < |texts| ==> |Frame(texts[i])| < INT_LIMIT
    ensures ReadFrames(Frames(texts)) == (texts, [])
    ensures LengthsFit(Frames(texts))
  {
    hide Frame, ReadHead, Wire;
    if texts == [] {
      NoHead();
    } else {
      FramesRoundTrip(texts[1..]);
      assert |Frame(texts[0])| < INT_LIMIT;
      FrameIsLonger(texts[0]);
      FrameIsText(texts[0]);
      WireStep(WireFrame(0x81, None, ShortestForm(|texts[0]|), texts[0]), Frames(texts[1..]));
      assert texts == [texts[0]] + texts[1..];
    }
  }

  lemma FrameIsLonger(text: seq<byte>)
    ensures |text| < |Frame(text)|
  {
  }
}
