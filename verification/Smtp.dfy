/**
 * The reader of SMTP replies, which rescans everything received so far after
 * each chunk. Models smtp_read_response in src/server/smtp_client.cpp.
 */
module Smtp {
  import opened Bytes
  import opened Network
  import opened Wrappers

  const CR: byte := 13
  const SPACE: byte := 32

  function StripReturn(line: seq<byte>): seq<byte> {
    if line != [] && line[|line| - 1] == CR then line[..|line| - 1] else line
  }

  /** A reply ends with the first line whose fourth character is a space. */
  predicate IsFinal(line: seq<byte>) {
    |StripReturn(line)| >= 4 && StripReturn(line)[3] == SPACE
  }

  function CodeOf(line: seq<byte>): int
    requires IsFinal(line)
  {
    Atoi(StripReturn(line)[..3])
  }

  predicate IsBlank(c: byte) {
    c == SPACE || 9 <= c <= 13
  }

  predicate IsDigit(c: byte) {
    48 <= c <= 57
  }

  /** C's `atoi`: blanks, a sign, then digits up to the first other character. */
  function Atoi(s: seq<byte>): int {
    if s == [] then 0
    else if IsBlank(s[0]) then Atoi(s[1..])
    else if s[0] == 45 then 0 - Digits(s[1..], 0)
    else if s[0] == 43 then Digits(s[1..], 0)
    else Digits(s, 0)
  }

  function Digits(s: seq<byte>, acc: nat): nat {
    if s != [] && IsDigit(s[0]) then Digits(s[1..], 10 * acc + (s[0] - 48)) else acc
  }

  /** The code of the first final line among the complete lines from `pos` on. */
  function FinalFrom(s: seq<byte>, pos: nat): Option<int>
    requires pos <= |s|
    decreases |s| - pos
  {
    match Find(s, LF, pos)
    case None => None
    case Some(eol) => if IsFinal(s[pos..eol]) then Some(CodeOf(s[pos..eol])) else FinalFrom(s, eol + 1)
  }

  function FinalCode(s: seq<byte>): Option<int> {
    FinalFrom(s, 0)
  }

  function ResponseOf(stream: seq<byte>): int {
    match FinalCode(stream)
    case Some(code) => code
    case None => -1
  }

  /**
   * The returned code depends on the stream alone, not on how it was cut into
   * reads; `out` may run past the final line, but its first final line is the stream's.
   */
  method ReadResponse(socket: Socket) returns (result: int, out: seq<byte>)
    modifies socket
    ensures result == ResponseOf(old(socket.pending))
    ensures out + socket.pending == old(socket.pending)
    ensures FinalCode(out) == FinalCode(old(socket.pending))
    ensures FinalCode(out) == None ==> socket.pending == []
  {
    hide Find, Digits, Atoi, Delivered, Later, StripReturn;
    out := [];
    ghost var stream := socket.pending;
    NothingYet();
    while true
      invariant out + socket.pending == stream
      invariant FinalCode(out) == None
      decreases |socket.pending|
    {
      ghost var before := out;
      var buf := socket.Recv(1023);
      if |buf| == 0 {
        assert out == stream;
        return -1, out;
      }
      out := out + buf;
      assert out + socket.pending == before + (buf + socket.pending) == stream;
      var pos := 0;
      var code := -1;
      while pos < |out|
        invariant pos <= |out|
        invariant FinalFrom(out, pos) == FinalCode(out)
        decreases |out| - pos
      {
        var eol := Find(out, LF, pos);
        if eol == None {
          break;
        }
        var line := StripReturn(out[pos..eol.value]);
        if |line| >= 4 {
          code := Atoi(line[..3]);
          if line[3] == SPACE {
            FinalStable(out, socket.pending, 0);
            return code, out;
          }
        }
        pos := eol.value + 1;
      }
      NothingAfter(out);
    }
  }

  lemma NothingYet()
    ensures FinalCode([]) == None
  {
  }

  lemma NothingAfter(s: seq<byte>)
    ensures FinalFrom(s, |s|) == None
  {
  }

  lemma {:induction false} FindStable(s: seq<byte>, more: seq<byte>, from: nat)
    requires from <= |s|
    ensures Find(s, LF, from).Some? ==> Find(s + more, LF, from) == Find(s, LF, from)
    decreases |s| - from
  {
    if from < |s| && s[from] != LF {
      FindStable(s, more, from + 1);
    }
  }

  /** Once found, the final code stays whatever arrives later. */
  lemma {:induction false} FinalStable(s: seq<byte>, more: seq<byte>, pos: nat)
    requires pos <= |s|
    ensures FinalFrom(s, pos).Some? ==> FinalFrom(s + more, pos) == FinalFrom(s, pos)
    decreases |s| - pos
  {
    hide Find, IsFinal, CodeOf;
    FindStable(s, more, pos);
    match Find(s, LF, pos) {
      case None =>
      case Some(eol) =>
        assert (s + more)[pos..eol] == s[pos..eol];
        FinalStable(s, more, eol + 1);
    }
  }

  // ------------------------------------------------------------- one pass

  /** A scanner that sees each byte once and keeps only the current line. */
  function OnePass(s: seq<byte>, line: seq<byte>): Option<int> {
    if s == [] then None
    else if s[0] != LF then OnePass(s[1..], line + [s[0]])
    else if IsFinal(line) then Some(CodeOf(line))
    else OnePass(s[1..], [])
  }

  /** The rescans compute what the one-pass scanner computes from the middle of any line. */
  lemma {:induction false} RescanIsOnePass(s: seq<byte>, start: nat, pos: nat)
    requires start <= pos <= |s| && forall k :: start <= k < pos ==> s[k] != LF
    ensures OnePass(s[pos..], s[start..pos]) == FinalFrom(s, start)
    decreases |s| - pos
  {
    hide IsFinal, CodeOf;
    FindSkips(s, LF, start, pos);
    if pos < |s| {
      OnePassStep(s, start, pos);
      RescanIsOnePass(s, if s[pos] == LF then pos + 1 else start, pos + 1);
    }
  }

  lemma OnePassStep(s: seq<byte>, start: nat, pos: nat)
    requires start <= pos < |s|
    ensures OnePass(s[pos..], s[start..pos])
         == if s[pos] != LF then OnePass(s[pos + 1..], s[start..pos + 1])
            else if IsFinal(s[start..pos]) then Some(CodeOf(s[start..pos]))
            else OnePass(s[pos + 1..], s[pos + 1..pos + 1])
  {
    assert s[pos..][0] == s[pos] && s[pos..][1..] == s[pos + 1..];
    assert s[start..pos] + [s[pos]] == s[start..pos + 1];
    assert s[pos + 1..pos + 1] == [];
  }

  // ------------------------------------------------- declarative reading

  /** `s[a..b]` is a complete line. */
  ghost predicate LineAt(s: seq<byte>, a: nat, b: nat) {
    a <= b < |s| && (a == 0 || s[a - 1] == LF) && s[b] == LF && forall k :: a <= k < b ==> s[k] != LF
  }

  ghost predicate FinalLineAt(s: seq<byte>, a: nat, b: nat) {
    LineAt(s, a, b) && IsFinal(s[a..b])
  }

  ghost predicate FirstFinalLine(s: seq<byte>, a: nat, b: nat) {
    FinalLineAt(s, a, b) && forall c: nat, d: nat :: FinalLineAt(s, c, d) ==> a <= c
  }

  /** There is a code exactly when some complete line is final, and it is that of the first such line. */
  lemma FinalCodeIsFirstFinalLine(s: seq<byte>)
    ensures FinalCode(s).Some? <==> exists a: nat, b: nat :: FinalLineAt(s, a, b)
    ensures forall a: nat, b: nat :: FirstFinalLine(s, a, b) ==> FinalCode(s) == Some(CodeOf(s[a..b]))
  {
    var r := FirstFinalFrom(s, 0);
    if r.Some? {
      var (a, b) := r.value;
      assert FinalLineAt(s, a, b);
      forall c: nat, d: nat | FirstFinalLine(s, c, d)
        ensures c == a && d == b
      {
        assert a <= c && c <= a;
      }
    }
  }

  lemma {:induction false} FirstFinalFrom(s: seq<byte>, from: nat) returns (r: Option<(nat, nat)>)
    requires from <= |s| && (from == 0 || s[from - 1] == LF)
    ensures r.Some? ==>
              && from <= r.value.0 && FinalLineAt(s, r.value.0, r.value.1)
              && FinalFrom(s, from) == Some(CodeOf(s[r.value.0..r.value.1]))
              && forall c: nat, d: nat :: from <= c && FinalLineAt(s, c, d) ==> r.value.0 <= c
    ensures r == None ==> FinalFrom(s, from) == None && forall c: nat, d: nat :: from <= c ==> !FinalLineAt(s, c, d)
    decreases |s| - from
  {
    hide FinalFrom, CodeOf, IsFinal, LineAt;
    FinalStep(s, from);
    match Find(s, LF, from) {
      case None =>
        r := None;
      case Some(eol) =>
        if IsFinal(s[from..eol]) {
          r := Some((from, eol));
        } else {
          r := FirstFinalFrom(s, eol + 1);
          forall c: nat, d: nat | from <= c && FinalLineAt(s, c, d)
            ensures eol + 1 <= c
          {
            if c <= eol {
              LineStartsHere(s, from, eol, c, d);
            }
          }
        }
    }
  }

  /** What one step of the scan knows about the next complete line. */
  lemma FinalStep(s: seq<byte>, from: nat)
    requires from <= |s| && (from == 0 || s[from - 1] == LF)
    ensures match Find(s, LF, from)
            case None => FinalFrom(s, from) == None && forall c: nat, d: nat :: from <= c ==> !LineAt(s, c, d)
            case Some(eol) =>
              && LineAt(s, from, eol) && s[eol] == LF && (forall k :: from <= k < eol ==> s[k] != LF)
              && FinalFrom(s, from) == if IsFinal(s[from..eol]) then Some(CodeOf(s[from..eol])) else FinalFrom(s, eol + 1)
  {
    hide IsFinal, CodeOf;
    FindSpec(s, LF, from);
  }

  lemma LineStartsHere(s: seq<byte>, from: nat, eol: nat, c: nat, d: nat)
    requires from <= c <= eol < |s| && s[eol] == LF && (forall k :: from <= k < eol ==> s[k] != LF)
    requires LineAt(s, c, d)
    ensures c == from && d == eol
  {
  }

  // ------------------------------------------------- replies as servers write them

  const HYPHEN: byte := 45

  /** Three digits and the number they spell. */
  predicate IsCode(code: seq<byte>) {
    |code| == 3 && IsDigit(code[0]) && IsDigit(code[1]) && IsDigit(code[2])
  }

  function CodeValue(code: seq<byte>): nat
    requires IsCode(code)
  {
    100 * (code[0] as nat - 48) + 10 * (code[1] as nat - 48) + (code[2] as nat - 48)
  }

  lemma ThreeDigits(code: seq<byte>)
    requires IsCode(code)
    ensures Atoi(code) == CodeValue(code)
  {
    hide Digits;
    var a: nat, b: nat, c: nat := code[0] - 48, code[1] - 48, code[2] - 48;
    assert code[1..] == [code[1], code[2]] && [code[1], code[2]][1..] == [code[2]] && [code[2]][1..] == [];
    DigitsStep(code, 0);
    DigitsStep([code[1], code[2]], a);
    DigitsStep([code[2]], 10 * a + b);
    DigitsStop(10 * (10 * a + b) + c);
  }

  lemma DigitsStop(acc: nat)
    ensures Digits([], acc) == acc
  {
  }

  /** One line of a reply: code, separator, text, carriage return and newline. */
  function ReplyLine(code: seq<byte>, separator: byte, text: seq<byte>): (line: seq<byte>)
    requires |code| == 3
    ensures |line| == |text| + 6
  {
    code + [separator] + text + [CR, LF]
  }

  /** All lines of a reply but the last have a hyphen after the code. */
  function Continued(code: seq<byte>, texts: seq<seq<byte>>): seq<byte>
    requires |code| == 3
  {
    if texts == [] then [] else ReplyLine(code, HYPHEN, texts[0]) + Continued(code, texts[1..])
  }

  /** A reply of RFC 5321, section 4.2.1. */
  function Reply(code: seq<byte>, texts: seq<seq<byte>>, last: seq<byte>): seq<byte>
    requires |code| == 3
  {
    Continued(code, texts) + ReplyLine(code, SPACE, last)
  }

  /** The next line of a stream, read off where it stands. */
  lemma LineReads(s: seq<byte>, from: nat, line: seq<byte>)
    requires from + |line| < |s| && s[from..from + |line|] == line && s[from + |line|] == LF && LF !in line
    ensures Find(s, LF, from) == Some(from + |line|)
  {
    hide Find;
    Without(s, from, from + |line|, line);
    FindsAt(s, LF, from, from + |line|);
  }

  lemma Placed(before: seq<byte>, line: seq<byte>, more: seq<byte>)
    ensures var s, end := before + (line + [LF]) + more, |before| + |line|;
            end < |s| && s[|before|..end] == line && s[end] == LF
  {
    var tail := line + [LF] + more;
    assert before + (line + [LF]) + more == before + tail;
    assert tail[..|line|] == line && tail[|line|] == LF;
  }

  lemma Without(s: seq<byte>, from: nat, end: nat, line: seq<byte>)
    requires from <= end <= |s| && s[from..end] == line && LF !in line
    ensures forall k :: from <= k < end ==> s[k] != LF
  {
    forall k | from <= k < end
      ensures s[k] != LF
    {
      assert s[k] == s[from..end][k - from];
    }
  }

  /** A reply line without its newline. */
  function LineBody(code: seq<byte>, separator: byte, text: seq<byte>): (line: seq<byte>)
    requires |code| == 3
    ensures |line| == |text| + 5
  {
    code + [separator] + text + [CR]
  }

  lemma ReplyLineIs(code: seq<byte>, separator: byte, text: seq<byte>)
    requires IsCode(code) && separator != LF && LF !in text
    ensures var line := LineBody(code, separator, text);
            && ReplyLine(code, separator, text) == line + [LF] && LF !in line
            && (IsFinal(line) <==> separator == SPACE)
            && (IsFinal(line) ==> CodeOf(line) == CodeValue(code))
  {
    hide Atoi;
    var line := LineBody(code, separator, text);
    assert StripReturn(line) == code + [separator] + text;
    assert StripReturn(line)[..3] == code;
    ThreeDigits(code);
  }

  /** The code of a whole reply is its three digits as a number, whatever its texts and whatever follows. */
  lemma ReplyUnderstood(code: seq<byte>, texts: seq<seq<byte>>, last: seq<byte>, more: seq<byte>)
    requires IsCode(code) && LF !in last && forall i :: 0 <= i < |texts| ==> LF !in texts[i]
    ensures ResponseOf(Reply(code, texts, last) + more) == CodeValue(code)
  {
    hide FinalFrom, Continued;
    RestUnderstood([], code, texts, last, more);
    assert [] + Reply(code, texts, last) + more == Reply(code, texts, last) + more;
  }

  lemma {:induction false} RestUnderstood(before: seq<byte>, code: seq<byte>, texts: seq<seq<byte>>, last: seq<byte>,
                                          more: seq<byte>)
    requires IsCode(code) && LF !in last && forall i :: 0 <= i < |texts| ==> LF !in texts[i]
    ensures FinalFrom(before + Reply(code, texts, last) + more, |before|) == Some(CodeValue(code))
    decreases |texts|
  {
    hide IsFinal, CodeOf, CodeValue, ReplyLine, Find, FinalFrom, LineBody;
    if texts == [] {
      assert before + Reply(code, texts, last) + more == before + ReplyLine(code, SPACE, last) + more;
      NextReplyLine(before, code, SPACE, last, more);
    } else {
      var line, rest := ReplyLine(code, HYPHEN, texts[0]), Reply(code, texts[1..], last);
      assert before + Reply(code, texts, last) + more == before + line + (rest + more);
      assert before + line + (rest + more) == (before + line) + rest + more;
      NextReplyLine(before, code, HYPHEN, texts[0], rest + more);
      RestUnderstood(before + line, code, texts[1..], last, more);
    }
  }

  /** What the scan makes of a reply line at its start. */
  lemma NextReplyLine(before: seq<byte>, code: seq<byte>, separator: byte, text: seq<byte>, more: seq<byte>)
    requires IsCode(code) && separator != LF && LF !in text
    ensures var s, line := before + ReplyLine(code, separator, text) + more, ReplyLine(code, separator, text);
            FinalFrom(s, |before|)
            == if separator == SPACE then Some(CodeValue(code)) else FinalFrom(s, |before + line|)
  {
    hide IsFinal, CodeOf, CodeValue, ReplyLine, Find, LineBody;
    var line := LineBody(code, separator, text);
    ReplyLineIs(code, separator, text);
    Placed(before, line, more);
    LineReads(before + (line + [LF]) + more, |before|, line);
  }

  // ---------------------------------------------------------- the value -1

  const MINUS: byte := 45
  const ZERO: byte := 48
  const ONE: byte := 49

  /** Three characters that read as minus one: "-1" and no further digit, "-01", or a blank and "-1". */
  predicate ReadsMinusOne(t: seq<byte>) {
    && |t| == 3
    && ((t[0] == MINUS && t[1] == ONE && !IsDigit(t[2]))
        || t == [MINUS, ZERO, ONE]
        || (IsBlank(t[0]) && t[1] == MINUS && t[2] == ONE))
  }

  lemma DigitsStep(s: seq<byte>, acc: nat)
    requires s != []
    ensures IsDigit(s[0]) ==> Digits(s, acc) == Digits(s[1..], 10 * acc + (s[0] - 48))
    ensures !IsDigit(s[0]) ==> Digits(s, acc) == acc
  {
  }

  /** Up to two digits after a sign. */
  lemma DigitsOfTwo(a: byte, b: byte)
    ensures Digits([a, b], 0) == if !IsDigit(a) then 0 else if !IsDigit(b) then a - 48 else 10 * (a - 48) + (b - 48)
    ensures Digits([b], 0) == if IsDigit(b) then b - 48 else 0
  {
    DigitsStep([a, b], 0);
    DigitsStep([b], 0);
    assert [a, b][1..] == [b] && [b][1..] == [];
    if IsDigit(a) {
      DigitsStep([b], a - 48);
    }
  }

  lemma AtoiMinusOne(t: seq<byte>)
    requires |t| == 3
    ensures Atoi(t) == -1 <==> ReadsMinusOne(t)
  {
    hide Digits;
    assert t == [t[0], t[1], t[2]] && t[1..] == [t[1], t[2]] && [t[1], t[2]][1..] == [t[2]] && [t[2]][1..] == [];
    DigitsOfTwo(t[1], t[2]);
    if IsBlank(t[0]) {
      AtoiOfTwo(t[1], t[2]);
    }
  }

  lemma AtoiOfTwo(a: byte, b: byte)
    ensures Atoi([a, b]) == -1 <==> a == MINUS && b == ONE
  {
    hide Digits;
    assert [a, b][1..] == [b] && [b][1..] == [];
    DigitsOfTwo(a, b);
    AtoiOfOne(b);
  }

  lemma AtoiOfOne(b: byte)
    ensures Atoi([b]) >= 0
  {
    assert [b][1..] == [];
  }

  /**
   * The reader answers -1 exactly when no complete line is final before the
   * stream ends, or when the first final line begins with three characters
   * that read as minus one.
   */
  lemma MinusOneMeans(stream: seq<byte>)
    ensures ResponseOf(stream) == -1
       <==> (forall a: nat, b: nat :: !FinalLineAt(stream, a, b))
            || (exists a: nat, b: nat :: FirstFinalLine(stream, a, b) && ReadsMinusOne(StripReturn(stream[a..b])[..3]))
  {
    hide FinalFrom, Atoi, StripReturn, ReadsMinusOne;
    FinalCodeIsFirstFinalLine(stream);
    var r := FirstFinalFrom(stream, 0);
    if r.Some? {
      var (a, b) := r.value;
      assert FirstFinalLine(stream, a, b);
      forall c: nat, d: nat | FirstFinalLine(stream, c, d)
        ensures ResponseOf(stream) == -1 <==> ReadsMinusOne(StripReturn(stream[c..d])[..3])
      {
        AtoiMinusOne(StripReturn(stream[c..d])[..3]);
      }
    }
  }

  /** "-1x " answers -1 although it is a complete final line. */
  lemma MinusOneFromALine()
    ensures FinalCode([45, 49, 120, 32, 10]) == Some(-1)
  {
    var s: seq<byte> := [45, 49, 120, 32, 10];
    assert Find(s, LF, 0) == Some(4);
    assert s[0..4] == [45, 49, 120, 32];
    assert [45, 49, 120, 32][..3] == [45, 49, 120];
    assert [45, 49, 120][1..] == [49, 120] && [49, 120][1..] == [120];
    assert Digits([49, 120], 0) == Digits([120], 1) == 1;
  }
}
