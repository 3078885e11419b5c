/**
 * The relay protocol's datagrams and the list of assigned names they carry.
 * Models src/server/relay_client.cpp and relay_client.h.
 */
module RelayWire {
  import opened Buffers
  import opened Bytes
  import opened Wrappers

  const MAGIC: byte := 0x46
  const REGISTER: byte := 0x01
  const CHALLENGE: byte := 0x02
  const CONFIRM: byte := 0x03
  const HEARTBEAT: byte := 0x04
  const NEIGHBORS: byte := 0x05
  const BUFFER: nat := 2048

  type Port = p: int | 0 <= p < 0x1_0000

  type Cookie = s: seq<byte> | |s| == 16 witness Zeros(16)

  // ------------------------------------------------------------- messages

  function Cut(payload: seq<byte>): (p: seq<byte>)
    ensures |p| <= BUFFER - 20
  {
    if |payload| <= BUFFER - 20 then payload else payload[..BUFFER - 20]
  }

  /** Magic, type, port, cookie and as much payload as fits the buffer. */
  function RelayMsg(kind: byte, port: Port, cookie: Cookie, payload: seq<byte>): (m: seq<byte>)
    ensures 20 <= |m| <= BUFFER
  {
    [MAGIC, kind] + ToBigEndian(port, 2) + cookie + Cut(payload)
  }

  method BuildRelayMsg(kind: byte, port: Port, cookie: Option<Cookie>, payload: seq<byte>) returns (m: seq<byte>)
    ensures m == RelayMsg(kind, port, if cookie.Some? then cookie.value else Zeros(16), payload)
  {
    hide Spliced, ToBigEndian, Zeros;
    var buf := new byte[2048](_ => 0);
    buf[0] := MAGIC;
    buf[1] := kind;
    buf[2] := (port / 0x100) % 0x100;
    buf[3] := port % 0x100;
    TwoDigits(port);
    ghost var head := [MAGIC, kind] + ToBigEndian(port, 2);
    assert buf[..4] == head;
    ghost var before := buf[..];
    var given := if cookie.Some? then cookie.value else Zeros(16);
    CopyInto(buf, 4, given);
    SpliceFront(before, head, given);
    var total := 20;
    if |payload| > 0 {
      var copy := if |payload| < 2048 - 20 then |payload| else 2048 - 20;
      before := buf[..];
      CopyInto(buf, 20, payload[..copy]);
      SpliceFront(before, head + given, payload[..copy]);
      total := total + copy;
    }
    m := buf[..total];
  }

  /** Where each field of a message stands. */
  lemma MsgFields(kind: byte, port: Port, cookie: Cookie, payload: seq<byte>)
    ensures var m := RelayMsg(kind, port, cookie, payload);
            && m[0] == MAGIC && m[1] == kind && Word(m[2], m[3]) == port
            && m[4..20] == cookie && m[20..] == Cut(payload)
  {
    var m := RelayMsg(kind, port, cookie, payload);
    TwoDigits(port);
    assert m[2..4] == ToBigEndian(port, 2);
    assert m[2] == m[2..4][0] && m[3] == m[2..4][1];
  }

  // -------------------------------------------------------- assigned names

  /** Scans [port:2][length:1][name] entries from `off`; empty when none fits and matches. */
  function NameFrom(payload: seq<byte>, off: nat, port: Port): seq<byte>
    requires off <= |payload|
    decreases |payload| - off
  {
    if off + 3 > |payload| then []
    else
      var len := payload[off + 2];
      if off + 3 + len > |payload| then []
      else if Word(payload[off], payload[off + 1]) == port then payload[off + 3..off + 3 + len]
      else NameFrom(payload, off + 3 + len, port)
  }

  method ExtractSubdomain(payload: seq<byte>, ourPort: Port) returns (name: seq<byte>)
    ensures name == NameFrom(payload, 0, ourPort)
  {
    var off := 0;
    while off + 3 <= |payload|
      invariant off <= |payload|
      invariant NameFrom(payload, off, ourPort) == NameFrom(payload, 0, ourPort)
      decreases |payload| - off
    {
      var port := Word(payload[off], payload[off + 1]);
      var slen := payload[off + 2];
      off := off + 3;
      if off + slen > |payload| {
        break;
      }
      if port == ourPort {
        return payload[off..off + slen];
      }
      off := off + slen;
    }
    name := [];
  }

  datatype Entry = Entry(port: Port, name: seq<byte>)

  ghost predicate Encodable(entries: seq<Entry>) {
    forall i :: 0 <= i < |entries| ==> |entries[i].name| < 256
  }

  function Encode(entries: seq<Entry>): seq<byte>
    requires Encodable(entries)
  {
    if entries == [] then []
    else EntryField(entries[0]) + Encode(entries[1..])
  }

  function EntryField(e: Entry): (f: seq<byte>)
    requires |e.name| < 256
    ensures |f| == 3 + |e.name|
  {
    ToBigEndian(e.port, 2) + [|e.name|] + e.name
  }

  function FirstName(entries: seq<Entry>, port: Port): seq<byte> {
    if entries == [] then []
    else if entries[0].port == port then entries[0].name
    else FirstName(entries[1..], port)
  }

  /** On any encoded list the scan gives the first name for the port, whatever stands before. */
  lemma {:induction false} ScanFindsFirst(before: seq<byte>, entries: seq<Entry>, port: Port)
    requires Encodable(entries)
    ensures NameFrom(before + Encode(entries), |before|, port) == FirstName(entries, port)
    decreases |entries|
  {
    hide ToBigEndian;
    if entries != [] {
      var e := entries[0];
      ScanEntry(before, e, Encode(entries[1..]), port);
      var field := EntryField(e);
      assert before + Encode(entries) == (before + field) + Encode(entries[1..]);
      ScanFindsFirst(before + field, entries[1..], port);
    }
  }

  lemma ScanEntry(before: seq<byte>, e: Entry, after: seq<byte>, port: Port)
    requires |e.name| < 256
    ensures var s, field := before + EntryField(e) + after, EntryField(e);
            NameFrom(s, |before|, port) == if e.port == port then e.name else NameFrom(s, |before + field|, port)
  {
    hide EntryField, NameFrom;
    var s, field := before + EntryField(e) + after, EntryField(e);
    assert s[|before|..|before| + |field|] == field;
    EntryAt(s, |before|, e, port);
  }

  lemma EntryAt(s: seq<byte>, off: nat, e: Entry, port: Port)
    requires |e.name| < 256 && off + 3 + |e.name| <= |s| && s[off..off + 3 + |e.name|] == EntryField(e)
    ensures NameFrom(s, off, port) == if e.port == port then e.name else NameFrom(s, off + 3 + |e.name|, port)
  {
    hide EntryField;
    var field := s[off..off + 3 + |e.name|];
    FieldParts(e);
    assert s[off] == field[0] && s[off + 1] == field[1] && s[off + 2] == field[2];
    assert s[off + 3..off + 3 + |e.name|] == field[3..];
  }

  lemma FieldParts(e: Entry)
    requires |e.name| < 256
    ensures var f := EntryField(e);
            Word(f[0], f[1]) == e.port && f[2] == |e.name| && f[3..] == e.name
  {
    TwoDigits(e.port);
  }
}
