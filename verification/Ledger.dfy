/**
 * The file-backed ledger that lets each identity sign once: the hexadecimal
 * nullifier of a hash, the text file, and the check of a session. Models the
 * nullifier database of src/server/mpcauth_server.cpp.
 */
module Ledger {
  import opened Bits
  import opened Bytes
  import opened Numerals
  import opened Wrappers

  // ------------------------------------------------------------ nullifiers

  /** Four bits a digit, least significant bit first; a last group may be short. */
  function HashToHex(bits: seq<bool>): string {
    if bits == [] then ""
    else if |bits| <= 4 then [HexDigit(bits)]
    else [HexDigit(bits[..4])] + HashToHex(bits[4..])
  }

  function HexDigit(group: seq<bool>): char
    requires |group| <= 4
  {
    GroupBound(group);
    DIGITS[FromBits(group)]
  }

  lemma GroupBound(group: seq<bool>)
    requires |group| <= 4
    ensures FromBits(group) < 16
  {
    ToFromBits(group);
    PowMonotone(2, |group|, 4);
    assert Pow(2, 4) == 16;
  }

  method ComputeHashToHex(hashOut: seq<bool>) returns (hex: string)
    ensures hex == HashToHex(hashOut)
  {
    hide HashToHex, HexDigit, FromBits, FirstGroup, Pow;
    hex := "";
    var i := 0;
    NoDigits(hashOut);
    while i < |hashOut|
      invariant 0 <= i && (i <= |hashOut| || HashToHex(hashOut) == hex)
      invariant i <= |hashOut| ==> HashToHex(hashOut) == hex + HashToHex(hashOut[i..])
    {
      ghost var group := FirstGroup(hashOut[i..]);
      GroupAt(hashOut, i);
      var val: nat := 0;
      var j := 0;
      while j < 4 && i + j < |hashOut|
        invariant 0 <= j <= |group| && group == FirstGroup(hashOut[i..])
        invariant val == FromBits(group[..j])
      {
        NextBit(group, j);
        if hashOut[i + j] {
          val := val + Pow(2, j);
        }
        j := j + 1;
      }
      assert group[..j] == group;
      DigitOf(group);
      NextDigit(hashOut, hex, i);
      hex := hex + [DIGITS[val]];
      i := i + 4;
    }
  }

  function FirstGroup(bits: seq<bool>): (g: seq<bool>)
    ensures |g| <= 4 && g <= bits
    ensures |g| == 4 || g == bits
  {
    if |bits| <= 4 then bits else bits[..4]
  }

  lemma GroupAt(bits: seq<bool>, i: nat)
    requires i < |bits|
    ensures var group := FirstGroup(bits[i..]);
            && |group| == (if i + 4 <= |bits| then 4 else |bits| - i)
            && forall j :: 0 <= j < |group| ==> group[j] == bits[i + j]
  {
  }

  lemma DigitOf(group: seq<bool>)
    requires |group| <= 4
    ensures FromBits(group) < |DIGITS| && DIGITS[FromBits(group)] == HexDigit(group)
  {
    GroupBound(group);
  }

  lemma NextBit(group: seq<bool>, j: nat)
    requires j < |group|
    ensures FromBits(group[..j + 1]) == FromBits(group[..j]) + if group[j] then Pow(2, j) else 0
  {
    hide FromBits, Pow;
    FromBitsAppend(group[..j], group[j]);
    assert group[..j + 1] == group[..j] + [group[j]];
  }

  lemma NextDigit(bits: seq<bool>, hex: string, i: nat)
    requires i < |bits|
    ensures hex + HashToHex(bits[i..])
         == (hex + [HexDigit(FirstGroup(bits[i..]))]) + if i + 4 <= |bits| then HashToHex(bits[i + 4..]) else ""
  {
    hide FromBits, HexDigit;
    assert |bits[i..]| > 4 ==> bits[i..][4..] == bits[i + 4..];
    assert |bits[i..]| == 4 ==> bits[i + 4..] == [];
  }

  lemma NoDigits(bits: seq<bool>)
    ensures HashToHex(bits[|bits|..]) == "" && HashToHex(bits[0..]) == HashToHex(bits)
    ensures FromBits(bits[..0]) == 0
  {
    assert bits[0..] == bits;
  }

  lemma HexDigitInjective(a: seq<bool>, b: seq<bool>)
    requires |a| == |b| <= 4 && HexDigit(a) == HexDigit(b)
    ensures a == b
  {
    GroupBound(a);
    GroupBound(b);
    DigitRoundTrip(FromBits(a));
    DigitRoundTrip(FromBits(b));
    ToFromBits(a);
    ToFromBits(b);
  }

  /** Hashes of one length have the same nullifier only when they are equal. */
  lemma {:induction false} HashToHexInjective(a: seq<bool>, b: seq<bool>)
    requires |a| == |b| && HashToHex(a) == HashToHex(b)
    ensures a == b
    decreases |a|
  {
    if |a| > 4 {
      var x, y := HashToHex(a), HashToHex(b);
      assert x[0] == HexDigit(a[..4]) && y[0] == HexDigit(b[..4]);
      assert x[1..] == HashToHex(a[4..]) && y[1..] == HashToHex(b[4..]);
      HexDigitInjective(a[..4], b[..4]);
      HashToHexInjective(a[4..], b[4..]);
      assert a == a[..4] + a[4..] && b == b[..4] + b[4..];
    } else if a != [] {
      assert HashToHex(a)[0] == HexDigit(a) && HashToHex(b)[0] == HexDigit(b);
      HexDigitInjective(a, b);
    }
  }

  /** Bit `i` of a hash is bit i % 4 of digit i / 4 of its nullifier. */
  lemma {:induction false} HexBit(bits: seq<bool>, i: nat)
    requires i < |bits|
    ensures |HashToHex(bits)| == (|bits| + 3) / 4
    ensures DigitValue(HashToHex(bits)[i / 4]).Some? && Pow(2, i % 4) > 0
    ensures bits[i] <==> (DigitValue(HashToHex(bits)[i / 4]).value / Pow(2, i % 4)) % 2 == 1
    decreases |bits|
  {
    hide HexDigit, HashToHex, Pow, DigitValue;
    HexStep(bits);
    if |bits| <= 4 {
      GroupBit(bits, i);
    } else {
      var rest := bits[4..];
      HexBit(rest, if i < 4 then 0 else i - 4);
      if i < 4 {
        GroupBit(bits[..4], i);
      } else {
        FourFewer(i);
        assert rest[i - 4] == bits[i];
      }
    }
  }

  lemma HexStep(bits: seq<bool>)
    requires bits != []
    ensures HashToHex(bits) == if |bits| <= 4 then [HexDigit(bits)] else [HexDigit(bits[..4])] + HashToHex(bits[4..])
  {
    hide HexDigit;
  }

  lemma FourFewer(i: nat)
    requires i >= 4
    ensures i / 4 == (i - 4) / 4 + 1 && i % 4 == (i - 4) % 4
  {
  }

  lemma GroupBit(group: seq<bool>, i: nat)
    requires i < |group| <= 4
    ensures DigitValue(HexDigit(group)).Some? && Pow(2, i) > 0
    ensures group[i] <==> (DigitValue(HexDigit(group)).value / Pow(2, i)) % 2 == 1
  {
    hide Pow, DigitValue;
    GroupBound(group);
    DigitRoundTrip(FromBits(group));
    ToFromBits(group);
    ToBitsAt(FromBits(group), |group|, i);
  }

  /** What makes a nullifier a line of its own: it is not empty and has no newline. */
  predicate IsLine(s: string) {
    s != "" && '\n' !in s
  }

  lemma {:induction false} NullifierIsLine(bits: seq<bool>)
    ensures '\n' !in HashToHex(bits)
    ensures bits != [] ==> IsLine(HashToHex(bits))
    decreases |bits|
  {
    if |bits| > 4 {
      NullifierIsLine(bits[4..]);
      GroupBound(bits[..4]);
    } else {
      GroupBound(bits);
    }
  }

  // -------------------------------------------------------------- the file

  /** The text file that holds the given lines. */
  function Render(lines: seq<string>): string {
    if lines == [] then "" else Render(lines[..|lines| - 1]) + lines[|lines| - 1] + "\n"
  }

  /** What one more nullifier does to the file and to the set in memory. */
  lemma LineAppended(lines: seq<string>, n: string)
    ensures Render(lines + [n]) == Render(lines) + n + "\n"
    ensures Elements(lines + [n]) == Elements(lines) + {n}
    ensures Render([]) == ""
  {
    assert (lines + [n])[..|lines|] == lines;
  }

  /** One `getline` at `pos`: the line and where the next one starts; fails at the end of the file. */
  function GetLine(file: string, pos: nat): (r: Option<(string, nat)>)
    requires pos <= |file|
    ensures r.Some? ==> pos < r.value.1 <= |file|
    ensures r == None <==> pos == |file|
  {
    if pos == |file| then None
    else
      var end := LineEnd(file, pos);
      Some((file[pos..end], if end == |file| then end else end + 1))
  }

  function LineEnd(file: string, pos: nat): (end: nat)
    requires pos <= |file|
    ensures pos <= end <= |file|
    ensures end < |file| ==> file[end] == '\n'
    ensures forall k :: pos <= k < end ==> file[k] != '\n'
    ensures pos < |file| && end == pos ==> end < |file|
    decreases |file| - pos
  {
    if pos == |file| || file[pos] == '\n' then pos else LineEnd(file, pos + 1)
  }

  /** The non-empty lines from `pos` on. */
  function LinesFrom(file: string, pos: nat): set<string>
    requires pos <= |file|
    decreases |file| - pos
  {
    match GetLine(file, pos)
    case None => {}
    case Some((line, next)) => (if line == "" then {} else {line}) + LinesFrom(file, next)
  }

  lemma {:induction false} LinesOfRendered(before: seq<string>, lines: seq<string>, file: string)
    requires file == Render(before + lines) && forall l :: l in lines ==> IsLine(l)
    ensures |Render(before)| <= |file| && LinesFrom(file, |Render(before)|) == Elements(lines)
    decreases |lines|
  {
    hide LinesFrom, Render, GetLine, LineEnd;
    if lines == [] {
      assert before + lines == before;
      NothingLeft(file);
    } else {
      var line, more := lines[0], before + [lines[0]];
      assert before + lines == more + lines[1..] && lines == [line] + lines[1..];
      LinesOfRendered(more, lines[1..], file);
      RenderPrefix(more, lines[1..]);
      LineAppended(before, line);
      assert line in lines;
      NextLine(file, Render(before), line);
      LinesStep(file, |Render(before)|);
    }
  }

  lemma NothingLeft(file: string)
    ensures LinesFrom(file, |file|) == {}
  {
  }

  lemma LinesStep(file: string, pos: nat)
    requires pos <= |file| && GetLine(file, pos).Some? && GetLine(file, pos).value.0 != ""
    ensures var (line, next) := GetLine(file, pos).value;
            LinesFrom(file, pos) == {line} + LinesFrom(file, next)
  {
    hide GetLine, LineEnd;
  }

  lemma {:induction false} RenderPrefix(a: seq<string>, b: seq<string>)
    ensures Render(a) <= Render(a + b)
    decreases |b|
  {
    if b == [] {
      assert a + b == a;
    } else {
      RenderPrefix(a, b[..|b| - 1]);
      assert (a + b)[..|a + b| - 1] == a + b[..|b| - 1];
    }
  }

  lemma NextLine(file: string, before: string, line: string)
    requires before + line + "\n" <= file && '\n' !in line
    ensures GetLine(file, |before|) == Some((line, |before| + |line| + 1))
  {
    var pos, stop := |before|, |before| + |line|;
    assert file[stop] == '\n';
    forall k | pos <= k < stop
      ensures file[k] != '\n'
    {
      assert file[k] == line[k - pos];
    }
    assert file[pos..stop] == line;
  }

  lemma ElementsIn(lines: seq<string>, n: string)
    ensures n in Elements(lines) <==> n in lines
  {
  }

  // ------------------------------------------------------------- the node

  datatype Outcome = Rejected | Signed(nullifier: string) | Threw

  class NullifierLedger {
    var database: set<string>
    var file: Option<string>
    ghost var lines: seq<string>

    /** Database and file agree, and the file spells the lines. */
    ghost predicate Valid()
      reads this
    {
      && (forall l :: l in lines ==> IsLine(l))
      && (file.Some? ==> file.value == Render(lines))
      && (file == None ==> lines == [])
      && database == Elements(lines)
    }

    constructor ()
      ensures Valid() && lines == []
    {
      database := {};
      file := None;
      lines := [];
    }

    method LoadNullifierDatabase()
      modifies this`database
      ensures database == old(database) + if file.Some? then LinesFrom(file.value, 0) else {}
    {
      if file == None {
        return;
      }
      var pos := 0;
      while pos < |file.value|
        invariant pos <= |file.value|
        invariant database + LinesFrom(file.value, pos) == old(database) + LinesFrom(file.value, 0)
        decreases |file.value| - pos
      {
        var line, next := GetLine(file.value, pos).value.0, GetLine(file.value, pos).value.1;
        if line != "" {
          database := database + {line};
        }
        pos := next;
      }
    }

    /** A new process: nothing in memory, then the file is loaded. */
    method Restart()
      requires Valid()
      modifies this`database
      ensures Valid() && database == Elements(lines)
    {
      database := {};
      LoadNullifierDatabase();
      if file.Some? {
        assert [] + lines == lines;
        LinesOfRendered([], lines, file.value);
      }
    }

    method SaveNullifier(nullifier: string)
      modifies this`file, this`lines
      ensures file == Some((if old(file).Some? then old(file).value else "") + nullifier + "\n")
      ensures lines == old(lines) + [nullifier]
    {
      var text := match file case Some(t) => t case None => "";
      file := Some(text + nullifier + "\n");
      lines := lines + [nullifier];
    }

    /** The end of a session: the check comes first, the verdict on cheating only after the nullifier is saved. */
    method FinishSession(hashResult: seq<bool>, cheated: bool) returns (r: Outcome)
      requires Valid() && hashResult != []
      modifies this
      ensures Valid()
      ensures var n := HashToHex(hashResult);
              if n in old(lines) then r == Rejected && lines == old(lines)
              else lines == old(lines) + [n] && r == if cheated then Threw else Signed(n)
    {
      hide HashToHex, Render, Elements;
      var nullifier := ComputeHashToHex(hashResult);
      NullifierIsLine(hashResult);
      ElementsIn(lines, nullifier);
      if nullifier in database {
        return Rejected;
      }
      LineAppended(lines, nullifier);
      database := database + {nullifier};
      SaveNullifier(nullifier);
      if cheated {
        return Threw;
      }
      r := Signed(nullifier);
    }
  }

  // ------------------------------------------------------------ whole runs

  /** A restart, or a session with its hash and whether the proof turned out forged. */
  datatype Event = Reload | Session(hash: seq<bool>, cheated: bool)

  /** The lines of the file after a run; the database holds the same after every event. */
  function Lines(events: seq<Event>): seq<string> {
    if events == [] then []
    else
      var lines, e := Lines(events[..|events| - 1]), events[|events| - 1];
      if e.Reload? || HashToHex(e.hash) in lines then lines else lines + [HashToHex(e.hash)]
  }

  function OutcomeAt(events: seq<Event>, j: nat): Outcome
    requires j < |events| && events[j].Session?
  {
    var n := HashToHex(events[j].hash);
    if n in Lines(events[..j]) then Rejected else if events[j].cheated then Threw else Signed(n)
  }

  const HASH_BITS: nat := 256

  lemma LinesAfter(events: seq<Event>, k: nat)
    requires k < |events|
    ensures Lines(events[..k + 1])
         == if events[k].Reload? || HashToHex(events[k].hash) in Lines(events[..k]) then Lines(events[..k])
            else Lines(events[..k]) + [HashToHex(events[k].hash)]
  {
    assert events[..k + 1][..k] == events[..k];
  }

  lemma NothingPlayed(events: seq<Event>)
    ensures Lines(events[..0]) == []
  {
  }

  ghost predicate FullHashes(events: seq<Event>) {
    forall j :: 0 <= j < |events| && events[j].Session? ==> |events[j].hash| == HASH_BITS
  }

  /** No nullifier stands on two lines. */
  lemma {:induction false} LinesDistinct(events: seq<Event>)
    ensures forall i, j :: 0 <= i < j < |Lines(events)| ==> Lines(events)[i] != Lines(events)[j]
    decreases |events|
  {
    if events != [] {
      LinesDistinct(events[..|events| - 1]);
    }
  }

  ghost predicate SessionWith(events: seq<Event>, j: nat, hash: seq<bool>)
    requires j < |events|
  {
    events[j].Session? && events[j].hash == hash
  }

  /** The ledger holds the nullifiers of exactly the hashes that have come up in a session. */
  lemma {:induction false} LedgerHoldsSessions(events: seq<Event>, hash: seq<bool>)
    requires FullHashes(events) && |hash| == HASH_BITS
    ensures HashToHex(hash) in Lines(events) <==> exists j: nat :: j < |events| && SessionWith(events, j, hash)
    decreases |events|
  {
    if events != [] {
      var front, e := events[..|events| - 1], events[|events| - 1];
      assert FullHashes(front) by {
        assert forall j :: 0 <= j < |front| ==> front[j] == events[j];
      }
      LedgerHoldsSessions(front, hash);
      if j: nat :| j < |front| && SessionWith(front, j, hash) {
        assert SessionWith(events, j, hash);
      }
      if j: nat :| j < |events| && SessionWith(events, j, hash) {
        assert j < |front| ==> SessionWith(front, j, hash);
      }
      if e.Session? {
        assert |e.hash| == HASH_BITS;
        if HashToHex(e.hash) == HashToHex(hash) {
          HashToHexInjective(e.hash, hash);
          assert SessionWith(events, |events| - 1, hash);
        }
      }
    }
  }

  /**
   * A session is rejected exactly when the same hash has come up before,
   * across any restarts, and two different hashes never stand in each other's
   * way. Otherwise it answers with its own nullifier unless it cheated.
   */
  lemma RejectedExactly(events: seq<Event>, j: nat)
    requires FullHashes(events) && j < |events| && events[j].Session?
    ensures OutcomeAt(events, j) == Rejected
       <==> exists i: nat :: i < j && SessionWith(events, i, events[j].hash)
    ensures OutcomeAt(events, j) == Threw ==> events[j].cheated
    ensures OutcomeAt(events, j).Signed? ==>
              !events[j].cheated && OutcomeAt(events, j).nullifier == HashToHex(events[j].hash)
  {
    var front, hash := events[..j], events[j].hash;
    LedgerHoldsSessions(front, hash);
    if i: nat :| i < j && SessionWith(events, i, hash) {
      assert SessionWith(front, i, hash);
    }
    if i: nat :| i < |front| && SessionWith(front, i, hash) {
      assert SessionWith(events, i, hash);
    }
  }

  /** No nullifier is ever returned as a success twice. */
  lemma NeverSignedTwice(events: seq<Event>, i: nat, j: nat)
    requires FullHashes(events) && i < j < |events| && events[i].Session? && events[j].Session?
    requires OutcomeAt(events, i).Signed?
    ensures OutcomeAt(events, j) != OutcomeAt(events, i)
  {
    if OutcomeAt(events, j) == OutcomeAt(events, i) {
      HashToHexInjective(events[i].hash, events[j].hash);
      assert SessionWith(events, i, events[j].hash);
      RejectedExactly(events, j);
    }
  }

  /**
   * A session found to be cheating leaves the ledger alone exactly when its
   * nullifier was known before; otherwise it has committed it, and the same
   * identity is rejected from then on.
   */
  lemma CheatingCommits(events: seq<Event>, hash: seq<bool>)
    requires FullHashes(events) && |hash| == HASH_BITS
    ensures var after := events + [Session(hash, true)];
            && (Lines(after) == Lines(events) <==> exists i: nat :: i < |events| && SessionWith(events, i, hash))
            && OutcomeAt(after + [Session(hash, false)], |after|) == Rejected
  {
    var after := events + [Session(hash, true)];
    var again := after + [Session(hash, false)];
    LedgerHoldsSessions(events, hash);
    assert after[..|events|] == events && again[..|after|] == after;
    assert |Lines(events) + [HashToHex(hash)]| != |Lines(events)|;
  }

  /**
   * A node that starts without a file and goes through the events one by one:
   * its file, its set in memory and its answers are those of `Lines` and
   * `OutcomeAt`, so no answer is ever the same success twice.
   */
  method PlayEvents(events: seq<Event>) returns (ledger: NullifierLedger, outcomes: seq<Option<Outcome>>)
    requires FullHashes(events)
    ensures ledger.Valid() && ledger.lines == Lines(events) && ledger.database == Elements(Lines(events))
    ensures |outcomes| == |events|
    ensures forall j :: 0 <= j < |events| ==>
              outcomes[j] == if events[j].Session? then Some(OutcomeAt(events, j)) else None
    ensures forall i, j :: 0 <= i < j < |events| && outcomes[i].Some? && outcomes[i].value.Signed? ==>
              outcomes[i] != outcomes[j]
  {
    hide HashToHex, Render, Elements, Lines;
    ledger := new NullifierLedger();
    outcomes := [];
    NothingPlayed(events);
    for k := 0 to |events|
      invariant fresh(ledger) && ledger.Valid() && ledger.lines == Lines(events[..k])
      invariant |outcomes| == k
      invariant forall j :: 0 <= j < k ==>
                  outcomes[j] == if events[j].Session? then Some(OutcomeAt(events, j)) else None
    {
      LinesAfter(events, k);
      match events[k] {
        case Reload =>
          ledger.Restart();
          outcomes := outcomes + [None];
        case Session(hash, cheated) =>
          var r := ledger.FinishSession(hash, cheated);
          outcomes := outcomes + [Some(r)];
      }
    }
    assert events[..|events|] == events;
    forall i, j | 0 <= i < j < |events| && outcomes[i].Some? && outcomes[i].value.Signed?
      ensures outcomes[i] != outcomes[j]
    {
      if events[j].Session? {
        NeverSignedTwice(events, i, j);
      }
    }
  }
}
