/**
 * The forwarder's two JSON extractors, which search for quotes, colons and
 * brackets instead of parsing. Models json_get_string and
 * json_get_string_array of src/server/forwarder.cpp.
 */
module Json {
  import opened Bytes
  import opened Wrappers

  const QUOTE: byte := 34
  const COLON: byte := 58
  const OPEN: byte := 91
  const CLOSE: byte := 93

  function Quoted(key: seq<byte>): (q: seq<byte>)
    ensures |q| == |key| + 2 && q[0] == QUOTE == q[|key| + 1]
    ensures q[1..|key| + 1] == key
  {
    [QUOTE] + key + [QUOTE]
  }

  /** The first place at or after `from` where `pattern` stands. */
  function FindText(s: seq<byte>, pattern: seq<byte>, from: nat): (r: Option<nat>)
    ensures r.Some? ==> from <= r.value && r.value + |pattern| <= |s|
    decreases |s| - from
  {
    if from + |pattern| > |s| then None
    else if s[from..from + |pattern|] == pattern then Some(from)
    else FindText(s, pattern, from + 1)
  }

  /** The text between the next two quotes after the next colon; empty when one is missing. */
  function ValueAfter(json: seq<byte>, from: nat): seq<byte>
    requires from <= |json|
  {
    match Find(json, COLON, from)
    case None => []
    case Some(colon) =>
      match Find(json, QUOTE, colon + 1)
      case None => []
      case Some(start) =>
        match Find(json, QUOTE, start + 1)
        case None => []
        case Some(end) => json[start + 1..end]
  }

  function GetString(json: seq<byte>, key: seq<byte>): seq<byte> {
    match FindText(json, Quoted(key), 0)
    case None => []
    case Some(pos) => ValueAfter(json, pos + |Quoted(key)|)
  }

  /** What stands between the brackets after the quoted key. */
  function Bracketed(json: seq<byte>, key: seq<byte>): Option<seq<byte>> {
    match FindText(json, Quoted(key), 0)
    case None => None
    case Some(pos) =>
      match Find(json, OPEN, pos)
      case None => None
      case Some(open) =>
        match Find(json, CLOSE, open)
        case None => None
        case Some(close) => if open < close then Some(json[open + 1..close]) else None
  }

  /** The texts between each two quotes from `p` on. */
  function QuotedFrom(arr: seq<byte>, p: nat): seq<seq<byte>>
    requires p <= |arr|
    decreases |arr| - p
  {
    match Find(arr, QUOTE, p)
    case None => []
    case Some(start) =>
      match Find(arr, QUOTE, start + 1)
      case None => []
      case Some(end) => [arr[start + 1..end]] + QuotedFrom(arr, end + 1)
  }

  function StringArray(json: seq<byte>, key: seq<byte>): seq<seq<byte>> {
    match Bracketed(json, key)
    case None => []
    case Some(arr) => QuotedFrom(arr, 0)
  }

  method GetStringArray(json: seq<byte>, key: seq<byte>) returns (result: seq<seq<byte>>)
    ensures result == StringArray(json, key)
  {
    hide Find, FindText, QuotedFrom;
    result := [];
    var pos := FindText(json, Quoted(key), 0);
    if pos == None {
      return;
    }
    var open := Find(json, OPEN, pos.value);
    if open == None {
      return;
    }
    var close := Find(json, CLOSE, open.value);
    if close == None {
      return;
    }
    FindSpec(json, OPEN, pos.value);
    FindSpec(json, CLOSE, open.value);
    var arr := json[open.value + 1..close.value];
    var p := 0;
    while true
      invariant p <= |arr|
      invariant result + QuotedFrom(arr, p) == QuotedFrom(arr, 0)
      decreases |arr| - p
    {
      QuotedStep(arr, p);
      var start := Find(arr, QUOTE, p);
      if start == None {
        break;
      }
      var end := Find(arr, QUOTE, start.value + 1);
      if end == None {
        break;
      }
      result := result + [arr[start.value + 1..end.value]];
      p := end.value + 1;
    }
  }

  lemma QuotedStep(arr: seq<byte>, p: nat)
    requires p <= |arr|
    ensures var start := Find(arr, QUOTE, p);
            if start == None || Find(arr, QUOTE, start.value + 1) == None then QuotedFrom(arr, p) == []
            else var end := Find(arr, QUOTE, start.value + 1).value;
                 QuotedFrom(arr, p) == [arr[start.value + 1..end]] + QuotedFrom(arr, end + 1)
  {
    hide Find;
  }

  // ----------------------------------------------- a text as its pieces

  /** The pieces with a quote between each two. */
  function Join(pieces: seq<seq<byte>>): seq<byte>
    requires pieces != []
  {
    if |pieces| == 1 then pieces[0] else pieces[0] + [QUOTE] + Join(pieces[1..])
  }

  ghost predicate QuoteFree(pieces: seq<seq<byte>>) {
    forall i :: 0 <= i < |pieces| ==> QUOTE !in pieces[i]
  }

  /** Every text is the join of quote-free pieces. */
  function Pieces(text: seq<byte>): (pieces: seq<seq<byte>>)
    ensures pieces != [] && QuoteFree(pieces) && Join(pieces) == text
  {
    match Find(text, QUOTE, 0)
    case None =>
      FindSpec(text, QUOTE, 0);
      [text]
    case Some(k) =>
      FindSpec(text, QUOTE, 0);
      var rest := Pieces(text[k + 1..]);
      assert text == text[..k] + [QUOTE] + text[k + 1..];
      assert ([text[..k]] + rest)[1..] == rest;
      [text[..k]] + rest
  }

  /** The pieces after the first inner one that is the key. */
  function AfterKey(pieces: seq<seq<byte>>, key: seq<byte>): (r: Option<seq<seq<byte>>>)
    ensures r.Some? ==> r.value != []
  {
    if |pieces| < 3 then None
    else if pieces[1] == key then Some(pieces[2..])
    else AfterKey(pieces[1..], key)
  }

  /** The pieces after the first `c`, which cuts its own piece in two. */
  function AfterByte(pieces: seq<seq<byte>>, c: byte): (r: Option<seq<seq<byte>>>)
    requires pieces != []
    ensures r.Some? ==> r.value != []
  {
    match Find(pieces[0], c, 0)
    case Some(k) => Some([pieces[0][k + 1..]] + pieces[1..])
    case None => if |pieces| == 1 then None else AfterByte(pieces[1..], c)
  }

  /** The pieces before the first `c`. */
  function BeforeByte(pieces: seq<seq<byte>>, c: byte): (r: Option<seq<seq<byte>>>)
    requires pieces != []
    ensures r.Some? ==> r.value != []
  {
    match Find(pieces[0], c, 0)
    case Some(k) => Some([pieces[0][..k]])
    case None =>
      if |pieces| == 1 then None
      else
        match BeforeByte(pieces[1..], c)
        case None => None
        case Some(more) => Some([pieces[0]] + more)
  }

  /** The second, fourth, ... piece, as long as another one follows. */
  function EverySecond(pieces: seq<seq<byte>>): seq<seq<byte>> {
    if |pieces| < 3 then [] else [pieces[1]] + EverySecond(pieces[2..])
  }

  function ValueIn(pieces: seq<seq<byte>>): seq<byte>
    requires pieces != []
  {
    match AfterByte(pieces, COLON)
    case None => []
    case Some(more) => if |more| < 3 then [] else more[1]
  }

  function PieceValue(pieces: seq<seq<byte>>, key: seq<byte>): seq<byte> {
    match AfterKey(pieces, key)
    case None => []
    case Some(rest) => ValueIn(rest)
  }

  function PieceArray(pieces: seq<seq<byte>>, key: seq<byte>): seq<seq<byte>> {
    match AfterKey(pieces, key)
    case None => []
    case Some(rest) =>
      match AfterByte(rest, OPEN)
      case None => []
      case Some(more) =>
        match BeforeByte(more, CLOSE)
        case None => []
        case Some(inside) => EverySecond(inside)
  }

  // ------------------------------------------------ searches on pieces

  lemma JoinStep(pieces: seq<seq<byte>>)
    requires |pieces| >= 2
    ensures Join(pieces) == pieces[0] + [QUOTE] + Join(pieces[1..])
  {
  }

  /** The next quote ends the current piece. */
  lemma FindQuote(text: seq<byte>, from: nat, pieces: seq<seq<byte>>)
    requires from <= |text| && pieces != [] && QuoteFree(pieces) && text[from..] == Join(pieces)
    ensures |pieces| == 1 ==> Find(text, QUOTE, from) == None
    ensures |pieces| > 1 ==>
              && Find(text, QUOTE, from) == Some(from + |pieces[0]|)
              && text[from..from + |pieces[0]|] == pieces[0]
              && text[from + |pieces[0]| + 1..] == Join(pieces[1..])
  {
    hide Find, Join;
    var p := pieces[0];
    if |pieces| == 1 {
      OnlyPiece(pieces);
      forall k | from <= k < |text|
        ensures text[k] != QUOTE
      {
        assert text[k] == text[from..][k - from];
      }
      FindNothing(text, QUOTE, from);
    } else {
      JoinStep(pieces);
      Suffix(text, from, p, QUOTE, Join(pieces[1..]));
      Without(text, from, p, QUOTE);
      FindsAt(text, QUOTE, from, from + |p|);
    }
  }

  lemma OnlyPiece(pieces: seq<seq<byte>>)
    requires |pieces| == 1
    ensures Join(pieces) == pieces[0]
  {
  }

  /** Indices into a text whose rest from `from` is known. */
  lemma Suffix(text: seq<byte>, from: nat, p: seq<byte>, c: byte, rest: seq<byte>)
    requires from <= |text| && text[from..] == p + [c] + rest
    ensures from + |p| < |text| && text[from + |p|] == c
    ensures text[from..from + |p|] == p && text[from + |p| + 1..] == rest
  {
    var s := text[from..];
    assert s[|p|] == c && s[..|p|] == p && s[|p| + 1..] == rest;
  }

  lemma Without(text: seq<byte>, from: nat, p: seq<byte>, c: byte)
    requires from + |p| <= |text| && text[from..from + |p|] == p && c !in p
    ensures forall k :: from <= k < from + |p| ==> text[k] != c
  {
    forall k | from <= k < from + |p|
      ensures text[k] != c
    {
      assert text[k] == text[from..from + |p|][k - from];
    }
  }

  /** The first `c` lies in the first piece that has one. */
  lemma {:induction false} FindByte(text: seq<byte>, c: byte, from: nat, pieces: seq<seq<byte>>)
    requires from <= |text| && pieces != [] && text[from..] == Join(pieces) && c != QUOTE
    ensures match AfterByte(pieces, c)
            case None => Find(text, c, from) == None
            case Some(more) =>
              Find(text, c, from).Some? && text[Find(text, c, from).value + 1..] == Join(more)
    decreases |pieces|
  {
    hide Find, Join;
    var p := pieces[0];
    FindSpec(p, c, 0);
    match Find(p, c, 0) {
      case Some(k) =>
        FindInside(text, c, from, pieces, k);
      case None =>
        if |pieces| == 1 {
          OnlyPiece(pieces);
          forall k | from <= k < |text|
            ensures text[k] != c
          {
            assert text[k] == text[from..][k - from];
          }
          FindNothing(text, c, from);
        } else {
          JoinStep(pieces);
          Suffix(text, from, p, QUOTE, Join(pieces[1..]));
          Without(text, from, p, c);
          FindSkips(text, c, from, from + |p| + 1);
          FindByte(text, c, from + |p| + 1, pieces[1..]);
        }
    }
  }

  lemma FindInside(text: seq<byte>, c: byte, from: nat, pieces: seq<seq<byte>>, k: nat)
    requires from <= |text| && pieces != [] && text[from..] == Join(pieces) && Find(pieces[0], c, 0) == Some(k)
    ensures Find(text, c, from) == Some(from + k)
    ensures text[from + k + 1..] == Join([pieces[0][k + 1..]] + pieces[1..])
    ensures text[from..from + k] == pieces[0][..k]
  {
    hide Find, Join;
    var p := pieces[0];
    FindSpec(p, c, 0);
    JoinFront(pieces, k);
    Suffix(text, from, p[..k], c, Join([p[k + 1..]] + pieces[1..]));
    Without(text, from, p[..k], c);
    FindsAt(text, c, from, from + k);
  }

  lemma JoinFront(pieces: seq<seq<byte>>, k: nat)
    requires pieces != [] && k < |pieces[0]|
    ensures Join(pieces) == pieces[0][..k] + [pieces[0][k]] + Join([pieces[0][k + 1..]] + pieces[1..])
  {
    var p, cut := pieces[0], [pieces[0][k + 1..]] + pieces[1..];
    assert p == p[..k] + [p[k]] + p[k + 1..];
    assert cut[1..] == pieces[1..];
  }

  /** What stands before the first `c` is the join of the pieces before it. */
  lemma {:induction false} TextBefore(text: seq<byte>, c: byte, from: nat, pieces: seq<seq<byte>>)
    requires from <= |text| && pieces != [] && text[from..] == Join(pieces) && c != QUOTE
    ensures match BeforeByte(pieces, c)
            case None => Find(text, c, from) == None
            case Some(inside) =>
              Find(text, c, from).Some? && text[from..Find(text, c, from).value] == Join(inside)
    decreases |pieces|
  {
    hide Find, Join;
    var p := pieces[0];
    FindSpec(p, c, 0);
    match Find(p, c, 0) {
      case Some(k) =>
        FindInside(text, c, from, pieces, k);
        OnlyPiece([p[..k]]);
      case None =>
        FindByte(text, c, from, pieces);
        if |pieces| > 1 {
          JoinStep(pieces);
          var rest := pieces[1..];
          Suffix(text, from, p, QUOTE, Join(rest));
          Without(text, from, p, c);
          FindSkips(text, c, from, from + |p| + 1);
          TextBefore(text, c, from + |p| + 1, rest);
          match BeforeByte(rest, c) {
            case None =>
            case Some(more) =>
              JoinStep([p] + more);
              assert ([p] + more)[1..] == more;
              Prepend(text, from, p, Find(text, c, from).value);
          }
        }
    }
  }

  lemma Prepend(text: seq<byte>, from: nat, p: seq<byte>, end: nat)
    requires from + |p| + 1 <= end <= |text| && text[from..from + |p|] == p && text[from + |p|] == QUOTE
    ensures text[from..end] == p + [QUOTE] + text[from + |p| + 1..end]
  {
  }

  /** The quoted key stands first where a whole inner piece is the key. */
  lemma {:induction false} FindKey(text: seq<byte>, from: nat, pieces: seq<seq<byte>>, key: seq<byte>)
    requires from <= |text| && pieces != [] && QuoteFree(pieces) && QUOTE !in key && text[from..] == Join(pieces)
    ensures match AfterKey(pieces, key)
            case None => FindText(text, Quoted(key), from) == None
            case Some(rest) =>
              && FindText(text, Quoted(key), from).Some?
              && text[FindText(text, Quoted(key), from).value + |Quoted(key)|..] == Join(rest)
    decreases |pieces|
  {
    hide Find, Join, FindText, Quoted;
    var p := pieces[0];
    if |pieces| == 1 {
      OnlyPiece(pieces);
      NoQuoteNoKey(text, from, key);
    } else {
      JoinStep(pieces);
      var at, rest := from + |p|, pieces[1..];
      Suffix(text, from, p, QUOTE, Join(rest));
      Without(text, from, p, QUOTE);
      SkipToQuote(text, from, at, key);
      KeyHere(text, at, rest, key);
      if !(|rest| > 1 && rest[0] == key) {
        FindKey(text, at + 1, rest, key);
      }
    }
  }

  lemma {:induction false} NoQuoteNoKey(text: seq<byte>, from: nat, key: seq<byte>)
    requires from <= |text| && QUOTE !in text[from..]
    ensures FindText(text, Quoted(key), from) == None
    decreases |text| - from
  {
    if from + |Quoted(key)| <= |text| {
      assert text[from] == text[from..][0];
      assert Quoted(key)[0] == QUOTE;
      assert text[from..from + |Quoted(key)|][0] != QUOTE;
      assert text[from + 1..] == text[from..][1..];
      NoQuoteNoKey(text, from + 1, key);
    }
  }

  lemma {:induction false} SkipToQuote(text: seq<byte>, from: nat, at: nat, key: seq<byte>)
    requires from <= at < |text| && forall k :: from <= k < at ==> text[k] != QUOTE
    ensures FindText(text, Quoted(key), from) == FindText(text, Quoted(key), at)
    decreases at - from
  {
    if from < at {
      SkipToQuote(text, from + 1, at, key);
      if from + |Quoted(key)| <= |text| {
        assert text[from..from + |Quoted(key)|][0] != QUOTE == Quoted(key)[0];
      }
    }
  }

  /** At a quote, the quoted key stands exactly when the next piece is the key and another quote follows. */
  lemma KeyHere(text: seq<byte>, at: nat, rest: seq<seq<byte>>, key: seq<byte>)
    requires at < |text| && text[at] == QUOTE && QUOTE !in key
    requires rest != [] && QuoteFree(rest) && text[at + 1..] == Join(rest)
    ensures if |rest| > 1 && rest[0] == key
            then FindText(text, Quoted(key), at) == Some(at) && at + |key| + 2 <= |text|
                 && text[at + |key| + 2..] == Join(rest[1..])
            else FindText(text, Quoted(key), at) == FindText(text, Quoted(key), at + 1)
  {
    hide Find, Join, FindText, Quoted;
    var here := text[at..];
    assert here == [QUOTE] + Join(rest);
    FindTextStep(text, Quoted(key), at);
    PieceIsKey(rest, key);
    if |rest| > 1 && rest[0] == key {
      KeyIsPiece(rest);
      AfterQuoted(here, key, Join(rest[1..]));
      assert text[at + |key| + 2..] == here[|key| + 2..];
    }
  }

  lemma PieceIsKey(rest: seq<seq<byte>>, key: seq<byte>)
    requires rest != [] && QuoteFree(rest) && QUOTE !in key
    ensures Quoted(key) <= [QUOTE] + Join(rest) ==> |rest| > 1 && rest[0] == key
  {
    hide Join, Quoted;
    if Quoted(key) <= [QUOTE] + Join(rest) {
      QuotedTail(key, Join(rest));
      OneIsFree(rest);
      JoinStep(rest);
      SameStart(rest[0], Join(rest[1..]), key);
    }
  }

  lemma KeyIsPiece(rest: seq<seq<byte>>)
    requires |rest| > 1
    ensures [QUOTE] + Join(rest) == Quoted(rest[0]) + Join(rest[1..])
  {
    hide Join;
    JoinStep(rest);
  }

  lemma OneIsFree(pieces: seq<seq<byte>>)
    requires pieces != [] && QuoteFree(pieces)
    ensures |pieces| == 1 ==> QUOTE !in Join(pieces)
  {
  }

  lemma QuotedTail(key: seq<byte>, text: seq<byte>)
    requires Quoted(key) <= [QUOTE] + text
    ensures key + [QUOTE] <= text && QUOTE in text
  {
    var more := ([QUOTE] + text)[|key| + 2..];
    assert [QUOTE] + text == Quoted(key) + more;
    assert text == ([QUOTE] + text)[1..] == key + [QUOTE] + more;
    assert text[|key|] == QUOTE;
  }

  /** Up to the next quote there is one quote-free text. */
  lemma SameStart(p: seq<byte>, rest: seq<byte>, q: seq<byte>)
    requires QUOTE !in p && QUOTE !in q && q + [QUOTE] <= p + [QUOTE] + rest
    ensures p == q
  {
    var a, b := q + [QUOTE], p + [QUOTE] + rest;
    forall k | 0 <= k < |p|
      ensures b[k] == p[k] != QUOTE
    {
    }
    forall k | 0 <= k < |q|
      ensures b[k] == q[k] != QUOTE
    {
      assert a[k] == b[k];
    }
    assert b[|p|] == QUOTE && a[|q|] == b[|q|] == QUOTE;
    assert |p| == |q|;
  }

  lemma AfterQuoted(here: seq<byte>, key: seq<byte>, more: seq<byte>)
    requires here == Quoted(key) + more
    ensures |key| + 2 <= |here| && here[|key| + 2..] == more
  {
    hide Quoted;
  }

  lemma FindTextStep(s: seq<byte>, pattern: seq<byte>, from: nat)
    requires pattern != [] && from <= |s|
    ensures FindText(s, pattern, from) == if pattern <= s[from..] then Some(from) else FindText(s, pattern, from + 1)
  {
    assert from + |pattern| <= |s| ==> s[from..from + |pattern|] == s[from..][..|pattern|];
  }

  // ------------------------------------------------ the extractors, exactly

  /** On any text the string extractor gives what its pieces say. */
  lemma GetStringExactly(pieces: seq<seq<byte>>, key: seq<byte>)
    requires pieces != [] && QuoteFree(pieces) && QUOTE !in key
    ensures GetString(Join(pieces), key) == PieceValue(pieces, key)
  {
    hide Find, Join, FindText, AfterKey, Quoted, ValueAfter, ValueIn;
    var text := Join(pieces);
    assert text[0..] == text;
    FindKey(text, 0, pieces, key);
    match AfterKey(pieces, key) {
      case None =>
      case Some(rest) =>
        AfterKeyFree(pieces, key);
        ValueExactly(text, FindText(text, Quoted(key), 0).value + |Quoted(key)|, rest);
    }
  }

  lemma ValueExactly(text: seq<byte>, from: nat, pieces: seq<seq<byte>>)
    requires from <= |text| && pieces != [] && QuoteFree(pieces) && text[from..] == Join(pieces)
    ensures ValueAfter(text, from) == ValueIn(pieces)
  {
    hide Find, Join, AfterByte;
    FindByte(text, COLON, from, pieces);
    match AfterByte(pieces, COLON) {
      case None =>
      case Some(more) =>
        var start := Find(text, COLON, from).value + 1;
        AfterByteFree(pieces, COLON);
        SecondPiece(text, start, more);
    }
  }

  lemma SecondPiece(text: seq<byte>, from: nat, pieces: seq<seq<byte>>)
    requires from <= |text| && pieces != [] && QuoteFree(pieces) && text[from..] == Join(pieces)
    ensures match Find(text, QUOTE, from)
            case None => |pieces| == 1
            case Some(start) =>
              && |pieces| > 1
              && match Find(text, QUOTE, start + 1)
                 case None => |pieces| == 2
                 case Some(end) => |pieces| > 2 && text[start + 1..end] == pieces[1]
  {
    hide Find, Join, QuoteFree;
    FindQuote(text, from, pieces);
    if |pieces| > 1 {
      var next, rest := from + |pieces[0]| + 1, pieces[1..];
      RestFree(pieces);
      FindQuote(text, next, rest);
      assert |rest| > 1 ==> text[next..next + |rest[0]|] == pieces[1];
    }
  }

  lemma RestFree(pieces: seq<seq<byte>>)
    requires pieces != [] && QuoteFree(pieces)
    ensures QuoteFree(pieces[1..])
  {
  }

  lemma {:induction false} AfterKeyFree(pieces: seq<seq<byte>>, key: seq<byte>)
    requires QuoteFree(pieces) && AfterKey(pieces, key).Some?
    ensures QuoteFree(AfterKey(pieces, key).value)
  {
    if pieces[1] != key {
      AfterKeyFree(pieces[1..], key);
    }
  }

  lemma {:induction false} AfterByteFree(pieces: seq<seq<byte>>, c: byte)
    requires pieces != [] && QuoteFree(pieces) && AfterByte(pieces, c).Some?
    ensures QuoteFree(AfterByte(pieces, c).value)
  {
    if Find(pieces[0], c, 0) == None {
      AfterByteFree(pieces[1..], c);
    }
  }

  lemma {:induction false} BeforeByteFree(pieces: seq<seq<byte>>, c: byte)
    requires pieces != [] && QuoteFree(pieces) && BeforeByte(pieces, c).Some?
    ensures QuoteFree(BeforeByte(pieces, c).value)
  {
    if Find(pieces[0], c, 0) == None {
      BeforeByteFree(pieces[1..], c);
    }
  }

  lemma {:induction false} QuotedAreEverySecond(arr: seq<byte>, p: nat, pieces: seq<seq<byte>>)
    requires p <= |arr| && pieces != [] && QuoteFree(pieces) && arr[p..] == Join(pieces)
    ensures QuotedFrom(arr, p) == EverySecond(pieces)
    decreases |pieces|
  {
    hide Find, Join, QuotedFrom;
    QuotedStep(arr, p);
    FindQuote(arr, p, pieces);
    if |pieces| > 1 {
      var start := p + |pieces[0]|;
      FindQuote(arr, start + 1, pieces[1..]);
      if |pieces| > 2 {
        assert pieces[1..][1..] == pieces[2..];
        QuotedAreEverySecond(arr, start + |pieces[1]| + 2, pieces[2..]);
      }
    }
  }

  /** On any text the array extractor gives what its pieces say. */
  lemma StringArrayExactly(pieces: seq<seq<byte>>, key: seq<byte>)
    requires pieces != [] && QuoteFree(pieces) && QUOTE !in key && OPEN !in key
    ensures StringArray(Join(pieces), key) == PieceArray(pieces, key)
  {
    hide Find, Join, FindText, AfterKey, AfterByte, BeforeByte, QuotedFrom, EverySecond;
    var text := Join(pieces);
    assert text[0..] == text;
    FindKey(text, 0, pieces, key);
    match AfterKey(pieces, key) {
      case None =>
      case Some(rest) =>
        var pos := FindText(text, Quoted(key), 0).value;
        KeyHasNoBracket(text, pos, key);
        FindByte(text, OPEN, pos + |Quoted(key)|, rest);
        match AfterByte(rest, OPEN) {
          case None =>
          case Some(more) =>
            var open := Find(text, OPEN, pos).value;
            FindSpec(text, OPEN, pos);
            FindSkips(text, CLOSE, open, open + 1);
            TextBefore(text, CLOSE, open + 1, more);
            match BeforeByte(more, CLOSE) {
              case None =>
              case Some(inside) =>
                var arr := text[open + 1..Find(text, CLOSE, open).value];
                AfterKeyFree(pieces, key);
                AfterByteFree(rest, OPEN);
                BeforeByteFree(more, CLOSE);
                assert arr[0..] == arr;
                QuotedAreEverySecond(arr, 0, inside);
            }
        }
    }
  }

  lemma KeyHasNoBracket(text: seq<byte>, pos: nat, key: seq<byte>)
    requires FindText(text, Quoted(key), 0) == Some(pos) && OPEN !in key
    ensures Find(text, OPEN, pos) == Find(text, OPEN, pos + |Quoted(key)|)
  {
    hide Find;
    FoundText(text, Quoted(key), 0);
    forall k | pos <= k < pos + |Quoted(key)|
      ensures text[k] != OPEN
    {
      assert text[k] == text[pos..pos + |Quoted(key)|][k - pos] == Quoted(key)[k - pos];
    }
    FindSkips(text, OPEN, pos, pos + |Quoted(key)|);
  }

  lemma {:induction false} FoundText(s: seq<byte>, pattern: seq<byte>, from: nat)
    requires FindText(s, pattern, from).Some?
    ensures var pos := FindText(s, pattern, from).value; s[pos..pos + |pattern|] == pattern
    decreases |s| - from
  {
    if s[from..from + |pattern|] != pattern {
      FoundText(s, pattern, from + 1);
    }
  }
}
