/**
 * Whole runs of the relay client over every sequence of datagrams and
 * timeouts. Statements about the steps that module Relay proves its engine to take.
 */
module RelayRuns {
  import opened Bytes
  import opened Relay
  import opened RelayWire

  function Run(port: Port, start: int, inputs: seq<Input>): (st: State)
    ensures st.port == port
  {
    if inputs == [] then Initial(port, start)
    else Step(Run(port, start, inputs[..|inputs| - 1]), inputs[|inputs| - 1])
  }

  /** What iteration `j` sends and calls back. */
  function EffectsAt(port: Port, start: int, inputs: seq<Input>, j: nat): seq<Effect>
    requires j < |inputs|
  {
    StepEffects(Run(port, start, inputs[..j]), inputs[j])
  }

  /** The state after `j` iterations. */
  function After(port: Port, start: int, inputs: seq<Input>, j: nat): State
    requires j <= |inputs|
  {
    Run(port, start, inputs[..j])
  }

  lemma AfterStep(port: Port, start: int, inputs: seq<Input>, j: nat)
    requires j < |inputs|
    ensures After(port, start, inputs, j + 1) == Step(After(port, start, inputs, j), inputs[j])
  {
    assert inputs[..j + 1][..j] == inputs[..j];
  }

  predicate SendsKind(e: Effect, kind: byte) {
    e.Sent? && |e.datagram| >= 2 && e.datagram[1] == kind
  }

  /** What the first `j` iterations send and call back, after the Register of the start. */
  function EffectsUpTo(port: Port, start: int, inputs: seq<Input>, j: nat): seq<Effect>
    requires j <= |inputs|
  {
    if j == 0 then [Sent(RelayMsg(REGISTER, port, Zeros(16), []))]
    else EffectsUpTo(port, start, inputs, j - 1) + EffectsAt(port, start, inputs, j - 1)
  }

  /** The engine, taken through any inputs of a clock that never goes back, follows the run. */
  method PlayInputs(port: Port, start: int, inputs: seq<Input>) returns (engine: RelayEngine)
    requires forall i :: 0 <= i < |inputs| ==> start <= inputs[i].now
    requires forall i, j :: 0 <= i <= j < |inputs| ==> inputs[i].now <= inputs[j].now
    ensures engine.Model() == Run(port, start, inputs)
    ensures engine.effects == EffectsUpTo(port, start, inputs, |inputs|)
  {
    hide Step, StepEffects, RelayMsg, Received, Run, EffectsAt;
    engine := new RelayEngine(port, start);
    StartOfRun(port, start, inputs);
    for k := 0 to |inputs|
      invariant fresh(engine) && engine.Model() == After(port, start, inputs, k)
      invariant engine.lastHeartbeat <= if k == 0 then start else inputs[k - 1].now
      invariant engine.effects == EffectsUpTo(port, start, inputs, k)
    {
      AfterStep(port, start, inputs, k);
      ClockKept(engine.Model(), inputs[k]);
      EffectsAre(port, start, inputs, k);
      engine.EngineStep(inputs[k].packet, inputs[k].now);
    }
    assert inputs[..|inputs|] == inputs;
  }

  lemma StartOfRun(port: Port, start: int, inputs: seq<Input>)
    ensures After(port, start, inputs, 0) == Initial(port, start)
  {
  }

  lemma ClockKept(st: State, i: Input)
    ensures Step(st, i).lastHeartbeat == st.lastHeartbeat || Step(st, i).lastHeartbeat == i.now
  {
  }

  lemma EffectsAre(port: Port, start: int, inputs: seq<Input>, j: nat)
    requires j < |inputs|
    ensures EffectsAt(port, start, inputs, j) == StepEffects(After(port, start, inputs, j), inputs[j])
  {
  }

  // ---------------------------------------------------------- registration

  /** Once registered, always registered. */
  lemma {:induction false} StaysRegistered(port: Port, start: int, inputs: seq<Input>, i: nat, j: nat)
    requires i <= j <= |inputs| && After(port, start, inputs, i).registered
    ensures After(port, start, inputs, j).registered
    decreases j
  {
    if i < j {
      StaysRegistered(port, start, inputs, i, j - 1);
      AfterStep(port, start, inputs, j - 1);
    }
  }

  /** A full Challenge or a Neighbors datagram, byte by byte. */
  predicate Admits(packet: seq<byte>) {
    && |packet| >= 4 && packet[0] == 0x46
    && ((packet[1] == 0x02 && |packet| >= 20) || packet[1] == 0x05)
  }

  /** Every other datagram, however short or long, changes nothing and is not answered. */
  lemma OthersIgnored(st: State, packet: seq<byte>)
    ensures !Admits(packet) ==> Received(st, packet) == st && ReceiveEffects(st, packet) == []
    ensures Admits(packet) ==> Received(st, packet).registered
  {
  }

  /** The client is registered exactly when such a datagram has come. */
  lemma {:induction false} RegisteredExactly(port: Port, start: int, inputs: seq<Input>, j: nat)
    requires j <= |inputs|
    ensures After(port, start, inputs, j).registered <==> exists i: nat :: i < j && Admits(inputs[i].packet)
    decreases j
  {
    hide Run, Received, Admits;
    if j == 0 {
      NothingYet(port, start, inputs);
    } else {
      RegisteredExactly(port, start, inputs, j - 1);
      AfterStep(port, start, inputs, j - 1);
      OthersIgnored(After(port, start, inputs, j - 1), inputs[j - 1].packet);
      StillRegistered(After(port, start, inputs, j - 1), inputs[j - 1].packet);
    }
  }

  lemma NothingYet(port: Port, start: int, inputs: seq<Input>)
    ensures !After(port, start, inputs, 0).registered
  {
  }

  lemma StillRegistered(st: State, packet: seq<byte>)
    ensures st.registered ==> Received(st, packet).registered
  {
  }

  /** Every Register names the port and carries a blank cookie and no payload. */
  lemma RegisterIsBlank(port: Port, start: int, inputs: seq<Input>, j: nat, e: Effect)
    requires j < |inputs| && e in EffectsAt(port, start, inputs, j) && SendsKind(e, REGISTER)
    ensures e == Sent(RelayMsg(REGISTER, port, Zeros(16), []))
  {
    hide Run, AssignedName;
    KindsDiffer(Received(After(port, start, inputs, j), inputs[j].packet));
  }

  /** A Register goes out exactly in the iterations that end unregistered at least ten seconds after the start. */
  lemma RegisterExactly(port: Port, start: int, inputs: seq<Input>, j: nat)
    requires j < |inputs|
    ensures (exists e :: e in EffectsAt(port, start, inputs, j) && SendsKind(e, REGISTER))
       <==> !After(port, start, inputs, j + 1).registered && inputs[j].now - start >= 10 * SECOND
  {
    AfterStep(port, start, inputs, j);
    UnregisteredKeepsClock(port, start, inputs, j);
    var st := Received(After(port, start, inputs, j), inputs[j].packet);
    if RegisterDue(st, inputs[j].now) {
      assert TickEffects(st, inputs[j].now)[0] == Sent(RegisterMsg(st));
      assert Sent(RegisterMsg(st)) in EffectsAt(port, start, inputs, j);
    }
  }

  lemma {:induction false} UnregisteredKeepsClock(port: Port, start: int, inputs: seq<Input>, j: nat)
    requires j <= |inputs|
    ensures !After(port, start, inputs, j).registered ==> After(port, start, inputs, j).lastHeartbeat == start
  {
    if j > 0 {
      UnregisteredKeepsClock(port, start, inputs, j - 1);
      AfterStep(port, start, inputs, j - 1);
    }
  }

  /** No Register is sent in or after an iteration that ends registered. */
  lemma NoRegisterOnceRegistered(port: Port, start: int, inputs: seq<Input>, i: nat, j: nat)
    requires i <= j < |inputs| && After(port, start, inputs, i + 1).registered
    ensures forall e :: e in EffectsAt(port, start, inputs, j) ==> !SendsKind(e, REGISTER)
  {
    StaysRegistered(port, start, inputs, i + 1, j + 1);
    RegisterExactly(port, start, inputs, j);
  }

  // --------------------------------------------------------------- cookies

  /** The cookie of the last Challenge of at least 20 bytes; zeros if none ever came. */
  function LatestCookie(inputs: seq<Input>): Cookie {
    if inputs == [] then Zeros(16)
    else
      var last := inputs[|inputs| - 1].packet;
      if IsChallenge(last) then last[4..20] else LatestCookie(inputs[..|inputs| - 1])
  }

  lemma {:induction false} CookieIsLatest(port: Port, start: int, inputs: seq<Input>)
    ensures Run(port, start, inputs).cookie == LatestCookie(inputs)
    decreases |inputs|
  {
    if inputs != [] {
      CookieIsLatest(port, start, inputs[..|inputs| - 1]);
    }
  }

  /** A Confirm is sent exactly in answer to a full Challenge, once, with the cookie of that Challenge. */
  lemma ConfirmAnswersChallenge(port: Port, start: int, inputs: seq<Input>, j: nat, e: Effect)
    requires j < |inputs|
    ensures e in EffectsAt(port, start, inputs, j) && SendsKind(e, CONFIRM)
       <==> IsChallenge(inputs[j].packet) && e == Sent(RelayMsg(CONFIRM, port, inputs[j].packet[4..20], []))
    ensures IsChallenge(inputs[j].packet) ==> multiset(EffectsAt(port, start, inputs, j))[e] <= 1
  {
    hide Run, StepEffects, RelayMsg;
    var st := After(port, start, inputs, j);
    StepConfirms(st, inputs[j], e);
    EffectsOnce(st, inputs[j], e);
  }

  lemma StepConfirms(st: State, i: Input, e: Effect)
    ensures e in StepEffects(st, i) && SendsKind(e, CONFIRM)
       <==> IsChallenge(i.packet) && e == Sent(RelayMsg(CONFIRM, st.port, i.packet[4..20], []))
  {
    hide AssignedName;
    var after := Received(st, i.packet);
    var a, b := ReceiveEffects(st, i.packet), TickEffects(after, i.now);
    KindsDiffer(after);
    if IsChallenge(i.packet) {
      assert a[0] == Sent(RelayMsg(CONFIRM, st.port, i.packet[4..20], []));
      assert (a + b)[0] == a[0];
    }
  }

  lemma EffectsOnce(st: State, i: Input, e: Effect)
    ensures IsChallenge(i.packet) ==> multiset(StepEffects(st, i))[e] <= 1
  {
    hide AssignedName;
    var after := Received(st, i.packet);
    var a, b := ReceiveEffects(st, i.packet), TickEffects(after, i.now);
    KindsDiffer(after);
    assert multiset(a + b) == multiset(a) + multiset(b);
  }

  lemma KindsDiffer(st: State)
    ensures ConfirmMsg(st)[1] == CONFIRM && HeartbeatMsg(st)[1] == HEARTBEAT && RegisterMsg(st)[1] == REGISTER
  {
  }

  /** Every Heartbeat carries the cookie of the latest Challenge received by then. */
  lemma HeartbeatCookie(port: Port, start: int, inputs: seq<Input>, j: nat, e: Effect)
    requires j < |inputs| && e in EffectsAt(port, start, inputs, j) && SendsKind(e, HEARTBEAT)
    ensures e == Sent(RelayMsg(HEARTBEAT, port, LatestCookie(inputs[..j + 1]), []))
  {
    AfterStep(port, start, inputs, j);
    CookieIsLatest(port, start, inputs[..j + 1]);
    KindsDiffer(Received(After(port, start, inputs, j), inputs[j].packet));
  }

  // ------------------------------------------------------------ subdomains

  /** The names announced to the subdomain callback, in order. */
  function Announced(port: Port, start: int, inputs: seq<Input>): seq<seq<byte>> {
    if inputs == [] then []
    else
      var front := inputs[..|inputs| - 1];
      Announced(port, start, front) + Names(StepEffects(Run(port, start, front), inputs[|inputs| - 1]))
  }

  function Names(effects: seq<Effect>): seq<seq<byte>> {
    if effects == [] then []
    else (if effects[0].Subdomain? then [effects[0].fqdn] else []) + Names(effects[1..])
  }

  lemma NamesStep(effects: seq<Effect>)
    ensures Names(effects)
         == if effects == [] then []
            else (if effects[0].Subdomain? then [effects[0].fqdn] else []) + Names(effects[1..])
  {
  }

  lemma {:induction false} NamesAppend(a: seq<Effect>, b: seq<Effect>)
    ensures Names(a + b) == Names(a) + Names(b)
  {
    hide Names;
    NamesStep(a);
    NamesStep(a + b);
    if a == [] {
      assert a + b == b;
    } else {
      NamesAppend(a[1..], b);
      assert (a + b)[0] == a[0] && (a + b)[1..] == a[1..] + b;
    }
  }

  lemma StepNames(st: State, i: Input)
    ensures Names(StepEffects(st, i))
         == if Step(st, i).subdomain == st.subdomain then [] else [Step(st, i).subdomain + SUFFIX]
  {
    var a, b := ReceiveEffects(st, i.packet), TickEffects(Received(st, i.packet), i.now);
    NamesAppend(a, b);
    assert Names(b) == [];
    if a != [] {
      assert Names(a) == (if a[0].Subdomain? then [a[0].fqdn] else []) + Names(a[1..]);
    }
  }

  /** What is appended to a name. */
  lemma SuffixReads()
    ensures SUFFIX == Ascii(".stare.network")
  {
  }

  /** Consecutive callbacks differ, and the last one names the subdomain the client stores. */
  lemma {:induction false} CallbacksFollowSubdomain(port: Port, start: int, inputs: seq<Input>)
    ensures var names, sub := Announced(port, start, inputs), Run(port, start, inputs).subdomain;
            && (names == [] <==> sub == [])
            && (names != [] ==> names[|names| - 1] == sub + SUFFIX)
            && forall k :: 0 < k < |names| ==> names[k - 1] != names[k]
    decreases |inputs|
  {
    hide StepEffects, Names, NameFrom;
    if inputs != [] {
      var front, last := inputs[..|inputs| - 1], inputs[|inputs| - 1];
      CallbacksFollowSubdomain(port, start, front);
      var before := Run(port, start, front);
      StepNames(before, last);
      var now := Step(before, last);
      if now.subdomain != before.subdomain {
        SuffixInjective(before.subdomain, now.subdomain);
      }
    }
  }

  lemma SuffixInjective(a: seq<byte>, b: seq<byte>)
    ensures a + SUFFIX == b + SUFFIX ==> a == b
  {
    if a + SUFFIX == b + SUFFIX {
      assert |a| == |b|;
      assert (a + SUFFIX)[..|a|] == a && (b + SUFFIX)[..|b|] == b;
    }
  }

  // ---------------------------------------------------------------- timing

  /** Iterations follow one another within five seconds, the receive timeout. */
  ghost predicate Paced(start: int, inputs: seq<Input>) {
    && (inputs != [] ==> start <= inputs[0].now <= start + 5 * SECOND)
    && forall j :: 0 < j < |inputs| ==> inputs[j - 1].now <= inputs[j].now <= inputs[j - 1].now + 5 * SECOND
  }

  predicate HeartbeatAt(port: Port, start: int, inputs: seq<Input>, j: nat)
    requires j < |inputs|
  {
    HeartbeatDue(Received(After(port, start, inputs, j), inputs[j].packet), inputs[j].now)
  }

  /** A heartbeat goes out in exactly the iterations called so. */
  lemma HeartbeatAtSends(port: Port, start: int, inputs: seq<Input>, j: nat)
    requires j < |inputs|
    ensures HeartbeatAt(port, start, inputs, j)
       <==> exists e :: e in EffectsAt(port, start, inputs, j) && SendsKind(e, HEARTBEAT)
  {
    var st := Received(After(port, start, inputs, j), inputs[j].packet);
    KindsDiffer(st);
    if HeartbeatAt(port, start, inputs, j) {
      assert TickEffects(st, inputs[j].now)[0] == Sent(HeartbeatMsg(st));
      assert Sent(HeartbeatMsg(st)) in EffectsAt(port, start, inputs, j);
    }
  }

  function Clock(start: int, inputs: seq<Input>, j: nat): int
    requires j <= |inputs|
  {
    if j == 0 then start else inputs[j - 1].now
  }

  lemma {:induction false} ClockMonotone(start: int, inputs: seq<Input>, i: nat, j: nat)
    requires Paced(start, inputs) && i <= j <= |inputs|
    ensures Clock(start, inputs, i) <= Clock(start, inputs, j)
    decreases j
  {
    if i < j {
      ClockMonotone(start, inputs, i, j - 1);
    }
  }

  /** After an iteration that ends registered the last heartbeat is less than 90 seconds old. */
  lemma {:induction false} HeartbeatFresh(port: Port, start: int, inputs: seq<Input>, j: nat)
    requires j <= |inputs| && Paced(start, inputs)
    ensures var st := After(port, start, inputs, j);
            && st.lastHeartbeat <= Clock(start, inputs, j)
            && (st.registered ==> Clock(start, inputs, j) - st.lastHeartbeat < 90 * SECOND)
  {
    if j > 0 {
      HeartbeatFresh(port, start, inputs, j - 1);
      AfterStep(port, start, inputs, j - 1);
      ClockMonotone(start, inputs, j - 1, j);
    }
  }

  /** The heartbeat clock is the time of the last heartbeat. */
  lemma {:induction false} ClockOfLastHeartbeat(port: Port, start: int, inputs: seq<Input>, i: nat, j: nat)
    requires i < j <= |inputs| && HeartbeatAt(port, start, inputs, i)
    requires forall k :: i < k < j ==> !HeartbeatAt(port, start, inputs, k)
    ensures After(port, start, inputs, j).lastHeartbeat == inputs[i].now && After(port, start, inputs, j).registered
    decreases j
  {
    hide AssignedName, Run;
    AfterStep(port, start, inputs, j - 1);
    if i < j - 1 {
      ClockOfLastHeartbeat(port, start, inputs, i, j - 1);
      assert !HeartbeatAt(port, start, inputs, j - 1);
    } else {
      assert HeartbeatAt(port, start, inputs, j - 1);
    }
  }

  /** Consecutive heartbeats are at least 90 and less than 95 seconds apart. */
  lemma HeartbeatSpacing(port: Port, start: int, inputs: seq<Input>, i: nat, j: nat)
    requires Paced(start, inputs) && i < j < |inputs|
    requires HeartbeatAt(port, start, inputs, i) && HeartbeatAt(port, start, inputs, j)
    requires forall k :: i < k < j ==> !HeartbeatAt(port, start, inputs, k)
    ensures 90 * SECOND <= inputs[j].now - inputs[i].now < 95 * SECOND
  {
    ClockOfLastHeartbeat(port, start, inputs, i, j);
    HeartbeatFresh(port, start, inputs, j);
  }

  /** From any moment at which the client is registered, the next heartbeat comes in under 95 seconds. */
  lemma {:induction false} NextHeartbeat(port: Port, start: int, inputs: seq<Input>, i: nat, j: nat) returns (h: nat)
    requires Paced(start, inputs) && i <= j < |inputs| && After(port, start, inputs, i).registered
    requires inputs[j].now - Clock(start, inputs, i) >= 95 * SECOND
    ensures i <= h <= j && HeartbeatAt(port, start, inputs, h)
    ensures inputs[h].now - Clock(start, inputs, i) < 95 * SECOND
    ensures After(port, start, inputs, h + 1).registered
  {
    HeartbeatFresh(port, start, inputs, i);
    h := FirstDue(port, start, inputs, i, i, j);
    StaysRegistered(port, start, inputs, i, h + 1);
  }

  lemma {:induction false} FirstDue(port: Port, start: int, inputs: seq<Input>, i: nat, k: nat, j: nat) returns (h: nat)
    requires Paced(start, inputs) && i <= k <= j < |inputs|
    requires After(port, start, inputs, k).registered
    requires After(port, start, inputs, k).lastHeartbeat == After(port, start, inputs, i).lastHeartbeat
    requires After(port, start, inputs, i).lastHeartbeat <= Clock(start, inputs, i)
    requires inputs[j].now - After(port, start, inputs, i).lastHeartbeat >= 90 * SECOND
    ensures k <= h <= j && HeartbeatAt(port, start, inputs, h)
    ensures inputs[h].now - After(port, start, inputs, i).lastHeartbeat < 95 * SECOND
    decreases j - k
  {
    HeartbeatFresh(port, start, inputs, k);
    AfterStep(port, start, inputs, k);
    if HeartbeatAt(port, start, inputs, k) {
      h := k;
    } else {
      h := FirstDue(port, start, inputs, i, k + 1, j);
    }
  }

  /** Every window of 190 seconds while registered, so every 270-second time to live, holds two heartbeats. */
  lemma TwoHeartbeats(port: Port, start: int, inputs: seq<Input>, i: nat, j: nat) returns (g: nat, h: nat)
    requires Paced(start, inputs) && i <= j < |inputs| && After(port, start, inputs, i).registered
    requires inputs[j].now - Clock(start, inputs, i) >= 190 * SECOND
    ensures i <= g < h <= j && HeartbeatAt(port, start, inputs, g) && HeartbeatAt(port, start, inputs, h)
    ensures inputs[h].now - Clock(start, inputs, i) < 190 * SECOND
  {
    g := NextHeartbeat(port, start, inputs, i, j);
    h := NextHeartbeat(port, start, inputs, g + 1, j);
  }
}
